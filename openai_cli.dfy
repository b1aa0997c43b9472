/**
 * The request-building and reply-reading helpers of `scripts/openai_cli.py`:
 * normalising the reasoning effort, the optional payload fields, and
 * extracting the answer text from a Responses, Chat Completions or
 * Completions reply, given as a decoded JSON value.
 */
module OpenAiCli {
  import opened Text

  /** A decoded JSON value; an object maps its keys to their values. */
  datatype Json = JNull | JBool(b: bool) | JNum(x: real) | JStr(s: string) | JList(items: seq<Json>) | JObject(fields: map<string, Json>)

  /** How a helper ends: with a value, by raising `APIError(status, message)`, or by raising `TypeError`. */
  datatype CliResult<T> = Ok(value: T) | ApiError(status: int, message: string) | TypeError(message: string)

  /** `obj.get(key)`: `None` (JSON null) for a missing key. */
  function Member(obj: map<string, Json>, key: string): Json
  {
    if key in obj then obj[key] else JNull
  }

  // ---------------------------------------------------------------------
  // Reasoning effort
  // ---------------------------------------------------------------------

  predicate IsXhighAlias(effort: string)
  {
    effort in {"xhigh", "x-high", "extra-high", "max", "maximum"}
  }

  /** `_normalize_reasoning_effort(value)`. */
  function NormalizeEffort(value: string): (r: Option<string>)
  {
    if value == [] then None
    else
      var effort := Lower(Strip(value));
      if effort == [] then None
      else if IsXhighAlias(effort) then Some("xhigh")
      else Some(effort)
  }

  predicate NoUpper(s: string)
  {
    forall k :: 0 <= k < |s| ==> !('A' <= s[k] <= 'Z')
  }

  /** Lower-casing keeps a string's length and whether each end is whitespace. */
  lemma LowerKeepsEnds(s: string)
    requires s == [] || (!IsSpace(s[0]) && !IsSpace(s[|s| - 1]))
    ensures Lower(s) == [] || (!IsSpace(Lower(s)[0]) && !IsSpace(Lower(s)[|s| - 1]))
    ensures NoUpper(Lower(s))
  {
  }

  /** A blank effort (empty or whitespace only) gives None, and only a blank one does. */
  lemma EffortNoneIffBlank(value: string)
    ensures NormalizeEffort(value).None? <==> IsBlank(value)
  {
    StripEmptyIffBlank(value);
  }

  /** An effort normalises to "xhigh" exactly when its trimmed, lower-cased form is one of the five aliases. */
  lemma XhighIffAlias(value: string)
    ensures NormalizeEffort(value) == Some("xhigh") <==> IsXhighAlias(Lower(Strip(value)))
  {
    if value == [] {
      assert Strip(value) == [];
      assert Lower(Strip(value)) == [];
    }
  }

  lemma XhighNormal()
    ensures Strip("xhigh") == "xhigh" && NoUpper("xhigh")
  {
    StripOfStripped("xhigh");
  }

  /** A normalised effort is non-empty, trimmed and lower-case. */
  lemma EffortShape(value: string)
    ensures NormalizeEffort(value).Some? ==>
      var e := NormalizeEffort(value).value;
      e != [] && Strip(e) == e && NoUpper(e)
  {
    if value != [] {
      var e := Lower(Strip(value));
      LoweredStripped(value);
      if e != [] {
        if IsXhighAlias(e) {
          assert NormalizeEffort(value) == Some("xhigh");
          XhighNormal();
        } else {
          assert NormalizeEffort(value) == Some(e);
        }
      }
    }
  }

  lemma LoweredStripped(value: string)
    ensures var e := Lower(Strip(value)); e == [] || (Strip(e) == e && NoUpper(e))
  {
    var _ := StripIsSlice(value);
    LowerKeepsEnds(Strip(value));
    StripOfStripped(Lower(Strip(value)));
  }

  /** Normalising an already normalised effort leaves it unchanged. */
  lemma EffortIdempotent(value: string)
    requires NormalizeEffort(value).Some?
    ensures NormalizeEffort(NormalizeEffort(value).value) == NormalizeEffort(value)
  {
    EffortShape(value);
    var e := NormalizeEffort(value).value;
    assert Lower(e) == e;
    assert Lower(Strip(e)) == e;
  }

  // ---------------------------------------------------------------------
  // The request payload
  // ---------------------------------------------------------------------

  /** The JSON request body, a dict the helpers extend in place. */
  class Payload {
    var fields: map<string, Json>

    constructor(model: string, input: string)
      ensures fields == map["model" := JStr(model), "input" := JStr(input)]
    {
      fields := map["model" := JStr(model), "input" := JStr(input)];
    }

    /** `_maybe_set_temperature`: a temperature is sent only when positive. */
    method MaybeSetTemperature(temperature: real)
      modifies this
      ensures temperature > 0.0 ==> fields == old(fields)["temperature" := JNum(temperature)]
      ensures temperature <= 0.0 ==> fields == old(fields)
    {
      if temperature != 0.0 && temperature > 0.0 {
        fields := fields["temperature" := JNum(temperature)];
      }
    }

    /** `_maybe_set_reasoning`: `{"effort": effort}` is sent only for a non-empty effort. */
    method MaybeSetReasoning(effort: Option<string>)
      modifies this
      ensures effort.Some? && effort.value != [] ==>
        fields == old(fields)["reasoning" := JObject(map["effort" := JStr(effort.value)])]
      ensures effort.None? || effort.value == [] ==> fields == old(fields)
    {
      if effort.Some? && effort.value != [] {
        fields := fields["reasoning" := JObject(map["effort" := JStr(effort.value)])];
      }
    }
  }

  /** A normalised effort is never empty, so it adds `reasoning` exactly when one was configured. */
  lemma NormalizedEffortSent(value: string)
    ensures NormalizeEffort(value).Some? ==> NormalizeEffort(value).value != []
  {
    EffortShape(value);
  }

  // ---------------------------------------------------------------------
  // Responses replies
  // ---------------------------------------------------------------------

  /** Lists and dicts cannot be looked up in a set: Python raises `TypeError`. */
  predicate Unhashable(j: Json)
  {
    j.JList? || j.JObject?
  }

  function UnhashableMessage(j: Json): string
  {
    if j.JList? then "unhashable type: 'list'" else "unhashable type: 'dict'"
  }

  /** `t in {"output_text", "text"}` for a hashable `t`. */
  predicate IsTextType(t: Json)
  {
    t == JStr("output_text") || t == JStr("text")
  }

  /** The texts of a prefix, followed by those of the next element; the first error wins. */
  function Then(a: CliResult<seq<string>>, b: CliResult<seq<string>>): CliResult<seq<string>>
  {
    if !a.Ok? then a else if !b.Ok? then b else Ok(a.value + b.value)
  }

  /** The texts found in the elements of a list, in order, each element's by `f`. */
  function Gather(xs: seq<Json>, f: Json -> CliResult<seq<string>>): CliResult<seq<string>>
  {
    if xs == [] then Ok([]) else Then(Gather(xs[..|xs| - 1], f), f(xs[|xs| - 1]))
  }

  /** The text a content chunk contributes: that of a dict typed `output_text` or `text`. */
  function ChunkText(chunk: Json): CliResult<seq<string>>
  {
    if !chunk.JObject? then Ok([])
    else
      var t := Member(chunk.fields, "type");
      if Unhashable(t) then TypeError(UnhashableMessage(t))
      else if IsTextType(t) then
        var text := Member(chunk.fields, "text");
        if text.JStr? then Ok([text.s]) else Ok([])
      else Ok([])
  }

  /**
   * The text an output item contributes: that of a dict typed `output_text`
   * or `text`, or of a `message` its string content or its content chunks.
   */
  function ItemText(item: Json): CliResult<seq<string>>
  {
    if !item.JObject? then Ok([])
    else
      var t := Member(item.fields, "type");
      if Unhashable(t) then TypeError(UnhashableMessage(t))
      else if IsTextType(t) then
        var text := Member(item.fields, "text");
        if text.JStr? then Ok([text.s]) else Ok([])
      else if t != JStr("message") then Ok([])
      else
        var content := Member(item.fields, "content");
        if content.JStr? then Ok([content.s])
        else if content.JList? then Gather(content.items, ChunkText)
        else Ok([])
  }

  /** `_extract_text_from_responses(resp)`. */
  function ResponsesText(resp: map<string, Json>): CliResult<string>
  {
    var outputText := Member(resp, "output_text");
    if outputText.JStr? && Strip(outputText.s) != [] then Ok(outputText.s)
    else
      var output := Member(resp, "output");
      if !output.JList? then Ok("")
      else
        match Gather(output.items, ItemText)
        case Ok(texts) => Ok(Concat(texts))
        case ApiError(status, message) => ApiError(status, message)
        case TypeError(message) => TypeError(message)
  }

  lemma GatherStep(xs: seq<Json>, f: Json -> CliResult<seq<string>>, i: nat)
    requires i < |xs|
    ensures Gather(xs[..i + 1], f) == Then(Gather(xs[..i], f), f(xs[i]))
  {
    assert xs[..i + 1][..i] == xs[..i];
  }

  /** Once an element raises, the whole list raises with that error. */
  lemma {:induction false} GatherErrorPersists(xs: seq<Json>, f: Json -> CliResult<seq<string>>, i: nat)
    requires i <= |xs| && !Gather(xs[..i], f).Ok?
    ensures Gather(xs, f) == Gather(xs[..i], f)
    decreases |xs| - i
  {
    if i < |xs| {
      GatherStep(xs, f, i);
      GatherErrorPersists(xs, f, i + 1);
    } else {
      assert xs[..i] == xs;
    }
  }

  /** The texts of a concatenation are those of its parts in document order. */
  lemma {:induction false} GatherAppend(a: seq<Json>, b: seq<Json>, f: Json -> CliResult<seq<string>>)
    ensures Gather(a + b, f) == Then(Gather(a, f), Gather(b, f))
  {
    if b == [] {
      assert a + b == a;
      ThenOkEmpty(Gather(a, f));
    } else {
      var init := b[..|b| - 1];
      assert (a + b)[..|a + b| - 1] == a + init;
      GatherAppend(a, init, f);
      ThenAssoc(Gather(a, f), Gather(init, f), f(b[|b| - 1]));
    }
  }

  lemma ThenOkEmpty(a: CliResult<seq<string>>)
    ensures Then(a, Ok([])) == a
  {
    if a.Ok? {
      assert a.value + [] == a.value;
    }
  }

  lemma ThenAssoc(a: CliResult<seq<string>>, b: CliResult<seq<string>>, c: CliResult<seq<string>>)
    ensures Then(Then(a, b), c) == Then(a, Then(b, c))
  {
    if a.Ok? && b.Ok? && c.Ok? {
      assert (a.value + b.value) + c.value == a.value + (b.value + c.value);
    }
  }

  /** A list yields its texts exactly when no element raises. */
  lemma {:induction false} GatherOkIff(xs: seq<Json>, f: Json -> CliResult<seq<string>>)
    ensures Gather(xs, f).Ok? <==> forall k :: 0 <= k < |xs| ==> f(xs[k]).Ok?
  {
    if xs != [] {
      var init := xs[..|xs| - 1];
      GatherOkIff(init, f);
      assert forall k :: 0 <= k < |init| ==> init[k] == xs[k];
    }
  }

  method ExtractFromResponses(resp: map<string, Json>) returns (r: CliResult<string>)
    ensures r == ResponsesText(resp)
  {
    var outputText := Member(resp, "output_text");
    if outputText.JStr? && Strip(outputText.s) != [] {
      return Ok(outputText.s);
    }
    var texts: seq<string> := [];
    var output := Member(resp, "output");
    if output.JList? {
      var items := output.items;
      var i := 0;
      while i < |items|
        invariant 0 <= i <= |items|
        invariant Gather(items[..i], ItemText) == Ok(texts)
      {
        GatherStep(items, ItemText, i);
        var found := ItemTexts(items[i]);
        i := i + 1;
        if !found.Ok? {
          GatherErrorPersists(items, ItemText, i);
          return TypeError(found.message);
        }
        texts := texts + found.value;
      }
      assert items[..i] == items;
    }
    if texts != [] {
      return Ok(Concat(texts));
    }
    r := Ok("");
  }

  /** The body of the loop over output items, with the loop over a message's content chunks. */
  method ItemTexts(item: Json) returns (r: CliResult<seq<string>>)
    ensures r == ItemText(item)
    ensures !r.ApiError?
  {
    if !item.JObject? {
      return Ok([]);
    }
    var itemType := Member(item.fields, "type");
    if Unhashable(itemType) {
      return TypeError(UnhashableMessage(itemType));
    }
    if IsTextType(itemType) {
      var text := Member(item.fields, "text");
      if text.JStr? {
        return Ok([text.s]);
      }
      return Ok([]);
    }
    if itemType != JStr("message") {
      return Ok([]);
    }
    var content := Member(item.fields, "content");
    if content.JStr? {
      return Ok([content.s]);
    }
    if !content.JList? {
      return Ok([]);
    }
    var chunks := content.items;
    var texts: seq<string> := [];
    var j := 0;
    while j < |chunks|
      invariant 0 <= j <= |chunks|
      invariant Gather(chunks[..j], ChunkText) == Ok(texts)
    {
      GatherStep(chunks, ChunkText, j);
      ThenOkEmpty(Ok(texts));
      var chunk := chunks[j];
      j := j + 1;
      if !chunk.JObject? {
        continue;
      }
      var chunkType := Member(chunk.fields, "type");
      if Unhashable(chunkType) {
        GatherErrorPersists(chunks, ChunkText, j);
        return TypeError(UnhashableMessage(chunkType));
      }
      if IsTextType(chunkType) {
        var text := Member(chunk.fields, "text");
        if text.JStr? {
          texts := texts + [text.s];
        }
      }
    }
    assert chunks[..j] == chunks;
    r := Ok(texts);
  }

  /** A reply of `output_text` items, one per text, reads back as the texts joined in order. */
  function TextItems(texts: seq<string>): (r: seq<Json>)
    ensures |r| == |texts|
  {
    seq(|texts|, k requires 0 <= k < |texts| => JObject(map["type" := JStr("output_text"), "text" := JStr(texts[k])]))
  }

  lemma {:induction false} GatherTextItems(texts: seq<string>)
    ensures Gather(TextItems(texts), ItemText) == Ok(texts)
  {
    if texts != [] {
      var init := texts[..|texts| - 1];
      GatherTextItems(init);
      assert TextItems(texts)[..|texts| - 1] == TextItems(init);
      var last := TextItems(texts)[|texts| - 1];
      assert Member(last.fields, "type") == JStr("output_text");
      assert ItemText(last) == Ok([texts[|texts| - 1]]);
      assert init + [texts[|texts| - 1]] == texts;
    }
  }

  lemma ResponsesRoundTrip(texts: seq<string>)
    ensures ResponsesText(map["output" := JList(TextItems(texts))]) == Ok(Concat(texts))
  {
    GatherTextItems(texts);
    var resp := map["output" := JList(TextItems(texts))];
    assert Member(resp, "output_text") == JNull;
  }

  /** A non-blank string `output_text` is the answer, whatever else the reply holds. */
  lemma ResponsesOutputTextFirst(resp: map<string, Json>, text: string)
    requires "output_text" in resp && resp["output_text"] == JStr(text) && !IsBlank(text)
    ensures ResponsesText(resp) == Ok(text)
  {
    StripEmptyIffBlank(text);
  }

  // ---------------------------------------------------------------------
  // Chat Completions and Completions replies
  // ---------------------------------------------------------------------

  /** `_extract_text_from_chat(resp)`. */
  function ChatText(resp: map<string, Json>): CliResult<string>
  {
    var choices := Member(resp, "choices");
    if !choices.JList? || choices.items == [] then ApiError(0, "No choices in chat response")
    else
      var first := choices.items[0];
      if !first.JObject? then ApiError(0, "Invalid chat choice payload")
      else
        var message := Member(first.fields, "message");
        if !message.JObject? then ApiError(0, "Invalid chat message payload")
        else
          var content := Member(message.fields, "content");
          if content.JStr? then Ok(content.s) else Ok("")
  }

  /** `_extract_text_from_completions(resp)`. */
  function CompletionsText(resp: map<string, Json>): CliResult<string>
  {
    var choices := Member(resp, "choices");
    if !choices.JList? || choices.items == [] then ApiError(0, "No choices in completions response")
    else
      var first := choices.items[0];
      if !first.JObject? then ApiError(0, "Invalid completions choice payload")
      else
        var text := Member(first.fields, "text");
        if text.JStr? then Ok(text.s) else Ok("")
  }

  /** A chat reply is read exactly when its first choice is a dict with a dict `message`. */
  predicate ChatShaped(resp: map<string, Json>)
  {
    var choices := Member(resp, "choices");
    && choices.JList? && choices.items != []
    && choices.items[0].JObject?
    && Member(choices.items[0].fields, "message").JObject?
  }

  /**
   * A chat reply raises `APIError` with status 0 exactly when it is not so
   * shaped; otherwise it yields the message content when that is a string,
   * and "" for any other content. Only the first choice is read.
   */
  lemma ChatOutcome(resp: map<string, Json>)
    ensures ChatText(resp).ApiError? <==> !ChatShaped(resp)
    ensures !ChatText(resp).TypeError?
    ensures ChatText(resp).ApiError? ==> ChatText(resp).status == 0
    ensures ChatShaped(resp) ==>
      var content := Member(Member(Member(resp, "choices").items[0].fields, "message").fields, "content");
      ChatText(resp) == Ok(if content.JStr? then content.s else "")
  {
  }

  function ChatReply(choices: seq<Json>): map<string, Json>
  {
    map["choices" := JList(choices)]
  }

  /** A reply whose first choice carries a string message content yields that content; later choices are ignored. */
  lemma ChatRoundTrip(content: string, later: seq<Json>)
    ensures ChatText(ChatReply([JObject(map["message" := JObject(map["content" := JStr(content)])])] + later)) == Ok(content)
  {
    var resp := ChatReply([JObject(map["message" := JObject(map["content" := JStr(content)])])] + later);
    assert Member(resp, "choices").items[0] == JObject(map["message" := JObject(map["content" := JStr(content)])]);
  }

  /** A completions reply is read exactly when its first choice is a dict. */
  predicate CompletionsShaped(resp: map<string, Json>)
  {
    var choices := Member(resp, "choices");
    choices.JList? && choices.items != [] && choices.items[0].JObject?
  }

  /**
   * A completions reply raises `APIError` with status 0 exactly when it is
   * not so shaped; otherwise it yields the first choice's `text` when that
   * is a string, and "" otherwise.
   */
  lemma CompletionsOutcome(resp: map<string, Json>)
    ensures CompletionsText(resp).ApiError? <==> !CompletionsShaped(resp)
    ensures !CompletionsText(resp).TypeError?
    ensures CompletionsText(resp).ApiError? ==> CompletionsText(resp).status == 0
    ensures CompletionsShaped(resp) ==>
      var text := Member(Member(resp, "choices").items[0].fields, "text");
      CompletionsText(resp) == Ok(if text.JStr? then text.s else "")
  {
  }

  lemma CompletionsRoundTrip(text: string, later: seq<Json>)
    ensures CompletionsText(map["choices" := JList([JObject(map["text" := JStr(text)])] + later)]) == Ok(text)
  {
    var resp := map["choices" := JList([JObject(map["text" := JStr(text)])] + later)];
    assert Member(resp, "choices").items[0] == JObject(map["text" := JStr(text)]);
  }
}
