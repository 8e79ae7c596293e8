/** The pure pieces of controllers/forecastController.js outside the PDF table: the
    required-field check of `processInventoryForecast`, `formatCsvDataForPrompt`, and the
    choice of the user prompt in `processWithGroq`. */
module ForecastController {
  import opened Js
  import GroqHelper

  // ---------------------------------------------------------------------------
  // Required-field validation

  /** The fields every inventory item must carry, in the order they are reported. */
  const RequiredFields: seq<string> := [
    "name", "sku", "tagId", "description", "category", "quantity", "threshold",
    "warehouseId", "zoneId", "shelfId", "binId", "status", "inventoryStatus",
    "costPrice", "retailPrice"
  ]

  /** `fields.filter((field) => !item.hasOwnProperty(field))`, an item being the set of its own
      property names. */
  function MissingOf(fields: seq<string>, item: set<string>): (m: seq<string>)
    ensures |m| <= |fields|
    ensures forall k :: 0 <= k < |m| ==> m[k] in fields && m[k] !in item
    ensures forall k :: 0 <= k < |fields| && fields[k] !in item ==> fields[k] in m
  {
    if fields == [] then []
    else (if fields[0] !in item then [fields[0]] else []) + MissingOf(fields[1..], item)
  }

  /** The filter keeps list order: the missing fields of a concatenation are those of each part,
      one after the other. */
  lemma {:induction false} MissingOfAppend(a: seq<string>, b: seq<string>, item: set<string>)
    ensures MissingOf(a + b, item) == MissingOf(a, item) + MissingOf(b, item)
  {
    if a != [] {
      assert (a + b)[0] == a[0] && (a + b)[1..] == a[1..] + b;
      MissingOfAppend(a[1..], b, item);
    } else {
      assert a + b == b;
    }
  }

  /** An item is reported exactly when it lacks one of the fields. */
  lemma MissingEmptyIff(fields: seq<string>, item: set<string>)
    ensures MissingOf(fields, item) == [] <==> forall f :: f in fields ==> f in item
  {
    var m := MissingOf(fields, item);
    if m == [] {
      forall f | f in fields
        ensures f in item
      {
        var k :| 0 <= k < |fields| && fields[k] == f;
      }
    } else {
      assert m[0] in fields && m[0] !in item;
    }
  }

  /** `Item ${index + 1} missing fields: ${missingFields.join(", ")}`. */
  function Message(index: nat, missing: seq<string>): string
  {
    "Item " + NatToString(index + 1) + " missing fields: " + Join(missing, ", ")
  }

  /** The messages for the items in order, one for each item that lacks a field. */
  function Errors(fields: seq<string>, items: seq<set<string>>): seq<string>
  {
    if items == [] then []
    else
      var last := |items| - 1;
      var m := MissingOf(fields, items[last]);
      Errors(fields, items[..last]) + (if m != [] then [Message(last, m)] else [])
  }

  /** An own property named `hasOwnProperty` hides the method, so `item.hasOwnProperty(field)`
      throws a TypeError on the item's first required field. */
  predicate ShadowsHasOwnProperty(item: set<string>)
  {
    "hasOwnProperty" in item
  }

  /** Some item makes the validation loop throw. */
  predicate AnyShadows(items: seq<set<string>>)
  {
    exists i :: 0 <= i < |items| && ShadowsHasOwnProperty(items[i])
  }

  /** `inventoryData.forEach(...)` pushing onto `validationErrors`; `threw` when an item's call
      to `hasOwnProperty` throws, which ends the loop. */
  method ValidateItems(items: seq<set<string>>) returns (errors: seq<string>, threw: bool)
    ensures threw <==> AnyShadows(items)
    ensures !threw ==> errors == Errors(RequiredFields, items)
  {
    errors := [];
    for i := 0 to |items|
      invariant errors == Errors(RequiredFields, items[..i])
      invariant forall j :: 0 <= j < i ==> !ShadowsHasOwnProperty(items[j])
    {
      if ShadowsHasOwnProperty(items[i]) {
        assert AnyShadows(items);
        return errors, true;
      }
      errors := ValidateItem(items, i, errors);
      assert forall j :: 0 <= j < i + 1 ==> !ShadowsHasOwnProperty(items[j]);
    }
    assert items[..|items|] == items;
    threw := false;
  }

  /** One call of the `forEach` callback: item `i`'s message, if it lacks a field. */
  method ValidateItem(items: seq<set<string>>, i: nat, errors: seq<string>) returns (next: seq<string>)
    requires i < |items| && errors == Errors(RequiredFields, items[..i])
    ensures next == Errors(RequiredFields, items[..i + 1])
  {
    assert items[..i + 1][..i] == items[..i];
    var missingFields := MissingOf(RequiredFields, items[i]);
    next := errors;
    if |missingFields| > 0 {
      next := next + [Message(i, missingFields)];
    }
  }

  /** The indices of the items that lack a field, in increasing order. */
  function Failing(fields: seq<string>, items: seq<set<string>>): (idx: seq<nat>)
    ensures forall k :: 0 <= k < |idx| ==> idx[k] < |items| && MissingOf(fields, items[idx[k]]) != []
    ensures forall i :: 0 <= i < |items| && MissingOf(fields, items[i]) != [] ==> i in idx
    ensures forall a, b :: 0 <= a < b < |idx| ==> idx[a] < idx[b]
  {
    if items == [] then []
    else
      var last := |items| - 1;
      var prev := Failing(fields, items[..last]);
      FailingSnoc(fields, items[..last], items[last], prev);
      ItemsSnoc(items);
      prev + (if MissingOf(fields, items[last]) != [] then [last] else [])
  }

  /** The failing indices of `init`, followed by that of `x` if it fails, are those of `init + [x]`. */
  lemma FailingSnoc(fields: seq<string>, init: seq<set<string>>, x: set<string>, prev: seq<nat>)
    requires forall k :: 0 <= k < |prev| ==> prev[k] < |init| && MissingOf(fields, init[prev[k]]) != []
    requires forall i :: 0 <= i < |init| && MissingOf(fields, init[i]) != [] ==> i in prev
    requires forall a, b :: 0 <= a < b < |prev| ==> prev[a] < prev[b]
    ensures var items := init + [x];
            var idx := prev + (if MissingOf(fields, x) != [] then [|init|] else []);
            (forall k :: 0 <= k < |idx| ==> idx[k] < |items| && MissingOf(fields, items[idx[k]]) != []) &&
            (forall i :: 0 <= i < |items| && MissingOf(fields, items[i]) != [] ==> i in idx) &&
            (forall a, b :: 0 <= a < b < |idx| ==> idx[a] < idx[b])
  {
    var items := init + [x];
    assert forall i :: 0 <= i < |init| ==> items[i] == init[i];
  }

  lemma ItemsSnoc(items: seq<set<string>>)
    requires items != []
    ensures items[..|items| - 1] + [items[|items| - 1]] == items
  {
  }

  /** The error list holds one message per failing item, in item order, each naming that item's
      number and its missing fields. */
  lemma {:induction false} ErrorsOfFailing(fields: seq<string>, items: seq<set<string>>)
    ensures |Errors(fields, items)| == |Failing(fields, items)|
    ensures forall k :: 0 <= k < |Errors(fields, items)| ==>
              Errors(fields, items)[k] ==
                Message(Failing(fields, items)[k], MissingOf(fields, items[Failing(fields, items)[k]]))
  {
    if items != [] {
      var last := |items| - 1;
      var init := items[..last];
      ErrorsOfFailing(fields, init);
      ErrorsLast(fields, items);
      FailingLast(fields, items);
      assert items == init + [items[last]];
      MessagesForSnoc(fields, init, items[last], Errors(fields, init), Failing(fields, init));
    }
  }

  /** `errors` holds, in order, the message for each item that `idx` names. */
  predicate MessagesFor(fields: seq<string>, items: seq<set<string>>, errors: seq<string>, idx: seq<nat>)
  {
    |errors| == |idx| &&
    forall k :: 0 <= k < |errors| ==> idx[k] < |items| && errors[k] == Message(idx[k], MissingOf(fields, items[idx[k]]))
  }

  lemma MessagesForSnoc(fields: seq<string>, init: seq<set<string>>, x: set<string>, errors: seq<string>, idx: seq<nat>)
    requires MessagesFor(fields, init, errors, idx)
    ensures var m := MissingOf(fields, x);
            MessagesFor(fields, init + [x], errors + (if m != [] then [Message(|init|, m)] else []),
                        idx + (if m != [] then [|init|] else []))
  {
    var items := init + [x];
    forall k | 0 <= k < |idx|
      ensures items[idx[k]] == init[idx[k]]
    {
    }
  }

  lemma ErrorsLast(fields: seq<string>, items: seq<set<string>>)
    requires items != []
    ensures var m := MissingOf(fields, items[|items| - 1]);
            Errors(fields, items) ==
              Errors(fields, items[..|items| - 1]) + (if m != [] then [Message(|items| - 1, m)] else [])
  {
  }

  lemma FailingLast(fields: seq<string>, items: seq<set<string>>)
    requires items != []
    ensures var m := MissingOf(fields, items[|items| - 1]);
            Failing(fields, items) == Failing(fields, items[..|items| - 1]) + (if m != [] then [|items| - 1] else [])
  {
  }

  /** There are no errors exactly when every item carries every field. */
  lemma ErrorsEmptyIff(fields: seq<string>, items: seq<set<string>>)
    ensures Errors(fields, items) == [] <==> forall i :: 0 <= i < |items| ==> MissingOf(fields, items[i]) == []
  {
    ErrorsOfFailing(fields, items);
    if Errors(fields, items) != [] {
      var i := Failing(fields, items)[0];
      assert MissingOf(fields, items[i]) != [];
    }
  }

  /** The request body: missing or not an array, or the items' property names. */
  datatype Request = NotAnArray | Items(items: seq<set<string>>)

  /** What a 400 response carries besides `error`: the hint `message`, or the list of
      `validationErrors`. */
  datatype Detail = Hint(message: string) | ValidationErrors(errors: seq<string>)

  /** The 400 response the request earns, the 500 response of the `catch` block, or acceptance. */
  datatype Verdict =
    | Rejected(error: string, detail: Detail)
    | Failed(message: string, error: string)
    | Accepted

  const InvalidArrayError: string := "Invalid or empty inventory data array"
  const InvalidArrayHint: string := "Please provide inventory data as an array of objects"
  const InvalidStructureError: string := "Invalid inventory data structure"
  const FailedMessage: string := "Failed to generate forecast"
  const ShadowedError: string := "item.hasOwnProperty is not a function"

  function CheckRequest(req: Request): Verdict
  {
    if req.NotAnArray? || req.items == [] then Rejected(InvalidArrayError, Hint(InvalidArrayHint))
    else if AnyShadows(req.items) then Failed(FailedMessage, ShadowedError)
    else
      var errors := Errors(RequiredFields, req.items);
      if errors != [] then Rejected(InvalidStructureError, ValidationErrors(errors)) else Accepted
  }

  /** The checks at the top of `processInventoryForecast`, with the `catch` that answers a thrown
      validation. */
  method CheckInventoryRequest(req: Request) returns (v: Verdict)
    ensures v == CheckRequest(req)
  {
    if req.NotAnArray? || |req.items| == 0 {
      return Rejected(InvalidArrayError, Hint(InvalidArrayHint));
    }
    var validationErrors, threw := ValidateItems(req.items);
    if threw {
      return Failed(FailedMessage, ShadowedError);
    }
    if |validationErrors| > 0 {
      return Rejected(InvalidStructureError, ValidationErrors(validationErrors));
    }
    return Accepted;
  }

  /** A missing, non-array or empty body gets the hint; a non-empty array with an item that hides
      `hasOwnProperty` gets the 500 response; otherwise the request goes through exactly when
      every item carries every required field, and is rejected for its structure exactly when
      some item lacks one. */
  lemma AcceptedIff(req: Request)
    ensures CheckRequest(req) == Rejected(InvalidArrayError, Hint(InvalidArrayHint)) <==>
              req.NotAnArray? || req.items == []
    ensures CheckRequest(req).Failed? <==>
              req.Items? && req.items != [] && exists i :: 0 <= i < |req.items| && "hasOwnProperty" in req.items[i]
    ensures CheckRequest(req) == Accepted <==>
              req.Items? && req.items != [] &&
              (forall i :: 0 <= i < |req.items| ==> "hasOwnProperty" !in req.items[i]) &&
              forall i, f :: 0 <= i < |req.items| && f in RequiredFields ==> f in req.items[i]
    ensures req.Items? && req.items != [] && !AnyShadows(req.items) ==>
              (CheckRequest(req).Rejected? <==>
                 exists i, f :: 0 <= i < |req.items| && f in RequiredFields && f !in req.items[i])
    ensures CheckRequest(req).Rejected? && CheckRequest(req).detail.ValidationErrors? ==>
              CheckRequest(req).detail.errors == Errors(RequiredFields, req.items) != []
  {
    if req.Items? {
      ErrorsEmptyIff(RequiredFields, req.items);
      forall i | 0 <= i < |req.items|
        ensures MissingOf(RequiredFields, req.items[i]) == [] <==> forall f :: f in RequiredFields ==> f in req.items[i]
      {
        MissingEmptyIff(RequiredFields, req.items[i]);
      }
    }
  }

  /** The throw wins over the 400 answer: an item that hides `hasOwnProperty` gets the 500
      response even when it lacks required fields and an earlier item lacks some too. */
  lemma ShadowedItemFails()
    ensures CheckRequest(Items([{"name"}, {"name", "hasOwnProperty"}])) == Failed(FailedMessage, ShadowedError)
  {
    assert ShadowsHasOwnProperty([{"name"}, {"name", "hasOwnProperty"}][1]);
  }

  // ---------------------------------------------------------------------------
  // formatCsvDataForPrompt

  /** One CSV record as its key/value pairs in property order. */
  datatype Field = Field(key: string, value: string)

  function Keys(record: seq<Field>): (r: seq<string>)
    ensures |r| == |record| && forall k :: 0 <= k < |r| ==> r[k] == record[k].key
  {
    seq(|record|, k requires 0 <= k < |record| => record[k].key)
  }

  function Values(record: seq<Field>): (r: seq<string>)
    ensures |r| == |record| && forall k :: 0 <= k < |r| ==> r[k] == record[k].value
  {
    seq(|record|, k requires 0 <= k < |record| => record[k].value)
  }

  /** `data.map((row) => Object.values(row).join(", "))`. */
  function RowLines(data: seq<seq<Field>>): (r: seq<string>)
    ensures |r| == |data| && forall k :: 0 <= k < |r| ==> r[k] == Join(Values(data[k]), ", ")
  {
    seq(|data|, k requires 0 <= k < |data| => Join(Values(data[k]), ", "))
  }

  /** `formatCsvDataForPrompt`; `None` where `data[0]` is undefined and `Object.keys` throws. */
  function FormatCsvDataForPrompt(data: seq<seq<Field>>): (r: Option<string>)
    ensures r.None? <==> data == []
  {
    if data == [] then None
    else Some("CSV Data:\nHeaders: " + Join(Keys(data[0]), ", ") + "\nRows:\n" + Join(RowLines(data), "\n"))
  }

  /** No key or value holds a line break. */
  predicate SingleLine(data: seq<seq<Field>>)
  {
    forall r, k :: 0 <= r < |data| && 0 <= k < |data[r]| ==> '\n' !in data[r][k].key && '\n' !in data[r][k].value
  }

  /** When no key or value holds a line break, the prompt's lines are the title, the header line
      of the first record's keys, the "Rows:" line, and one line per record of its values. */
  lemma PromptLines(data: seq<seq<Field>>)
    requires data != [] && SingleLine(data)
    ensures Split(FormatCsvDataForPrompt(data).value, '\n') ==
              ["CSV Data:", "Headers: " + Join(Keys(data[0]), ", "), "Rows:"] + RowLines(data)
  {
    var parts := ["CSV Data:", "Headers: " + Join(Keys(data[0]), ", "), "Rows:"] + RowLines(data);
    PromptIsJoin(data);
    PartsSingleLine(data);
    SplitJoin(parts, '\n');
  }

  lemma PromptIsJoin(data: seq<seq<Field>>)
    requires data != []
    ensures FormatCsvDataForPrompt(data).value ==
              Join(["CSV Data:", "Headers: " + Join(Keys(data[0]), ", "), "Rows:"] + RowLines(data), "\n")
  {
    JoinOfParts("Headers: " + Join(Keys(data[0]), ", "), RowLines(data));
    assert "CSV Data:\n" + "Headers: " == "CSV Data:\nHeaders: ";
  }

  lemma PartsSingleLine(data: seq<seq<Field>>)
    requires data != [] && SingleLine(data)
    ensures var parts := ["CSV Data:", "Headers: " + Join(Keys(data[0]), ", "), "Rows:"] + RowLines(data);
            forall k :: 0 <= k < |parts| ==> '\n' !in parts[k]
  {
    var header := "Headers: " + Join(Keys(data[0]), ", ");
    var rows := RowLines(data);
    var parts := ["CSV Data:", header, "Rows:"] + rows;
    JoinAvoids(Keys(data[0]), ", ", '\n');
    assert '\n' !in header by {
      assert forall x :: x in header ==> x in "Headers: " || x in Join(Keys(data[0]), ", ");
    }
    forall k | 0 <= k < |rows|
      ensures '\n' !in rows[k]
    {
      JoinAvoids(Values(data[k]), ", ", '\n');
    }
    assert forall k :: 3 <= k < |parts| ==> parts[k] == rows[k - 3];
  }

  lemma JoinOfParts(header: string, rows: seq<string>)
    requires rows != []
    ensures Join(["CSV Data:", header, "Rows:"] + rows, "\n") ==
              "CSV Data:\n" + header + "\nRows:\n" + Join(rows, "\n")
  {
    var parts := ["CSV Data:", header, "Rows:"] + rows;
    var j := Join(rows, "\n");
    assert parts[1..] == [header, "Rows:"] + rows;
    assert parts[1..][1..] == ["Rows:"] + rows;
    assert parts[1..][1..][1..] == rows;
    assert Join(["Rows:"] + rows, "\n") == "Rows:" + "\n" + j;
    assert Join(parts[1..], "\n") == header + "\n" + ("Rows:" + "\n" + j);
    assert Join(parts, "\n") == "CSV Data:" + "\n" + (header + "\n" + ("Rows:" + "\n" + j));
    assert "CSV Data:" + "\n" == "CSV Data:\n";
    assert "\n" + ("Rows:" + "\n" + j) == "\nRows:\n" + j;
  }

  // ---------------------------------------------------------------------------
  // The user prompt of processWithGroq

  /** What a handler passes as `data`: parsed CSV records, a string, or any other JSON value,
      carried here as its `JSON.stringify` text. */
  datatype Payload = Records(rows: seq<seq<Field>>) | Text(text: string) | Json(stringified: string)

  /** The handlers' pairing of payloads and types: CSV records go with "csv" and nothing else does. */
  predicate WellPaired(data: Payload, forecastType: string)
  {
    data.Records? <==> forecastType == "csv"
  }

  /** The prompt for a string or JSON payload: the string itself, else its stringified form. */
  function Direct(data: Payload): string
    requires !data.Records?
  {
    if data.Text? then data.text else data.stringified
  }

  /** The user prompt as `processWithGroq` chooses it: types other than "csv", "text" and
      "automated" leave it empty. `None` stands for the error thrown on an empty CSV array. */
  function UserPromptAsWritten(data: Payload, forecastType: string): (r: Option<string>)
    requires WellPaired(data, forecastType)
    ensures !GroqHelper.IsKnownType(forecastType) ==> r == Some("")
  {
    if forecastType == "csv" then FormatCsvDataForPrompt(data.rows)
    else if forecastType == "text" || forecastType == "automated" then Some(Direct(data))
    else Some("")
  }

  /** The inventory handler's carefully formatted analysis never reaches the model. */
  lemma InventoryPromptDropped(analysis: string)
    requires analysis != []
    ensures UserPromptAsWritten(Text(analysis), "inventory") == Some("")
    ensures UserPromptAsWritten(Text(analysis), "inventory") != Some(analysis)
  {
  }

  /** The user prompt with the "inventory" type sending its data like "automated" does. */
  function UserPrompt(data: Payload, forecastType: string): (r: Option<string>)
    requires WellPaired(data, forecastType)
    ensures r.None? <==> (forecastType == "csv" && data.rows == [])
  {
    if forecastType == "csv" then FormatCsvDataForPrompt(data.rows)
    else if forecastType == "text" || forecastType == "automated" || forecastType == "inventory" then Some(Direct(data))
    else Some("")
  }

  /** Every forecast handler's data reaches the model, and apart from "inventory" nothing
      changes. */
  lemma UserPromptCarriesData(data: Payload, forecastType: string)
    requires WellPaired(data, forecastType)
    ensures forecastType in {"text", "automated", "inventory"} ==> UserPrompt(data, forecastType) == Some(Direct(data))
    ensures forecastType != "inventory" ==> UserPrompt(data, forecastType) == UserPromptAsWritten(data, forecastType)
  {
  }

  /** The two prompts `processWithGroq` hands to the model: the system prompt for the type and
      the user prompt, or `None` where it fails before calling out. */
  function GroqRequest(data: Payload, forecastType: string): (r: Option<(string, string)>)
    requires WellPaired(data, forecastType)
    ensures r.Some? ==> GroqHelper.BasePrompt <= r.value.0
    ensures r.None? <==> (forecastType == "csv" && data.rows == [])
    ensures forecastType == "csv" && r.Some? ==>
              FormatCsvDataForPrompt(data.rows).Some? && r.value.1 == FormatCsvDataForPrompt(data.rows).value
    ensures (forecastType == "text" || forecastType == "automated") ==> r.Some? && r.value.1 == Direct(data)
    ensures !GroqHelper.IsKnownType(forecastType) ==> r.Some? && r.value.0 == GroqHelper.BasePrompt && r.value.1 == ""
  {
    match UserPromptAsWritten(data, forecastType)
    case None => None
    case Some(prompt) => Some((GroqHelper.SystemPrompt(forecastType), prompt))
  }

  /** The request with the corrected user prompt: the inventory analysis is sent. */
  function GroqRequestFixed(data: Payload, forecastType: string): (r: Option<(string, string)>)
    requires WellPaired(data, forecastType)
    ensures r.Some? ==> GroqHelper.BasePrompt <= r.value.0
    ensures r.None? <==> (forecastType == "csv" && data.rows == [])
    ensures forecastType in {"text", "automated", "inventory"} ==> r.Some? && r.value.1 == Direct(data)
  {
    match UserPrompt(data, forecastType)
    case None => None
    case Some(prompt) => Some((GroqHelper.SystemPrompt(forecastType), prompt))
  }

  /** The two requests differ only for "inventory": the same system prompt, and the code's user
      prompt is empty where the corrected one carries the analysis. */
  lemma GroqRequestsAgree(data: Payload, forecastType: string)
    requires WellPaired(data, forecastType)
    ensures forecastType != "inventory" ==> GroqRequest(data, forecastType) == GroqRequestFixed(data, forecastType)
    ensures forecastType == "inventory" ==>
              && GroqRequest(data, forecastType).Some? && GroqRequestFixed(data, forecastType).Some?
              && GroqRequest(data, forecastType).value.0 == GroqRequestFixed(data, forecastType).value.0
              && GroqRequest(data, forecastType).value.1 == ""
              && GroqRequestFixed(data, forecastType).value.1 == Direct(data)
  {
    UserPromptCarriesData(data, forecastType);
  }
}
