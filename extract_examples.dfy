/** The behaviour the extraction's unit tests pin, one lemma per group of tests. */
module MessageContentExamples {
  import opened Wrappers
  import opened JsonValue
  import opened MessageContent

  function TextItem(t: string): Json {
    JObj(map["type" := JStr("text"), "text" := JStr(t)])
  }

  /** null, undefined and the empty object all yield "". */
  lemma EdgeCases()
    ensures ExtractMessageContent(Some(JNull)) == Success("")
    ensures ExtractMessageContent(None) == Success("")
    ensures ExtractMessageContent(Some(JObj(map[]))) == Success("")
  {
    NoKnownField(map[]);
  }

  /** A string `content` is returned, and it wins over `text` and `summary`. */
  lemma DirectContent()
    ensures ExtractMessageContent(Some(JObj(map["content" := JStr("Hello world")]))) == Success("Hello world")
    ensures ExtractMessageContent(Some(JObj(map["content" := JStr("Content text"), "text" := JStr("Text field"),
      "summary" := JStr("Summary field")]))) == Success("Content text")
  {
    ContentWins(map[], "Hello world");
    ContentWins(map["text" := JStr("Text field"), "summary" := JStr("Summary field")], "Content text");
    assert map["text" := JStr("Text field"), "summary" := JStr("Summary field")]["content" := JStr("Content text")]
      == map["content" := JStr("Content text"), "text" := JStr("Text field"), "summary" := JStr("Summary field")];
  }

  /** `text` is used without `content` and wins over `summary`; `summary` is the last
      direct field. */
  lemma TextAndSummary()
    ensures ExtractMessageContent(Some(JObj(map["text" := JStr("Text message")]))) == Success("Text message")
    ensures ExtractMessageContent(Some(JObj(map["text" := JStr("Text field"), "summary" := JStr("Summary field")])))
      == Success("Text field")
    ensures ExtractMessageContent(Some(JObj(map["summary" := JStr("Summary text")]))) == Success("Summary text")
  {
    TextWinsOverSummary(map[], "Text message");
    var fields := map["summary" := JStr("Summary field")];
    assert fields["text" := JStr("Text field")] == map["text" := JStr("Text field"), "summary" := JStr("Summary field")];
    TextWinsOverSummary(fields, "Text field");
    SummaryWinsOverNested(map[], "Summary text");
  }

  /** A nested string `message.content` is returned. */
  lemma NestedString()
    ensures ExtractMessageContent(Some(JObj(map["message" := JObj(map["content" := JStr("Nested content")])])))
      == Success("Nested content")
  {
    NestedStringVerbatim(map[], map[], "Nested content");
  }

  /** Two text items with non-empty texts are joined with a space. */
  lemma TwoTextItems(x: string, y: string)
    requires x != "" && y != ""
    ensures ExtractMessageContent(Some(NestedArray([TextItem(x), TextItem(y)]))) == Success(x + " " + y)
  {
    var a, b := TextItem(x), TextItem(y);
    assert Get(a, "type") == Some(JStr("text")) && Get(a, "text") == Some(JStr(x));
    assert Get(b, "type") == Some(JStr("text")) && Get(b, "text") == Some(JStr(y));
    NestedArraySource([a, b]);
    assert [a, b][1..] == [b];
    assert TextValues([b]) == [JStr(y)];
    var vs := [JStr(x), JStr(y)];
    assert TextValues([a, b]) == vs;
    assert vs[0] == JStr(x) && vs[1..] == [JStr(y)];
    assert JoinElement(JStr(x)) == Success(x) && JoinElement(JStr(y)) == Success(y);
    assert JoinValues([JStr(y)], " ") == Success(y);
    assert JoinValues(vs, " ") == Success(x + " " + y);
  }

  /** A non-text item between two text items contributes nothing. */
  lemma TextItemsAround(x: string, other: Json, y: string)
    requires x != "" && y != "" && !IsTextItem(other)
    ensures ExtractMessageContent(Some(NestedArray([TextItem(x), other, TextItem(y)]))) == Success(x + " " + y)
  {
    var a, b := TextItem(x), TextItem(y);
    NonTextItemIgnored([a], other, [b]);
    assert [a] + [other] + [b] == [a, other, b] && [a] + [b] == [a, b];
    TwoTextItems(x, y);
  }

  /** A text item followed by two items that contribute nothing. */
  lemma TextItemThenOthers(x: string, o1: Json, o2: Json)
    requires x != "" && !IsTextItem(o1) && !IsTextItem(o2)
    ensures ExtractMessageContent(Some(NestedArray([TextItem(x), o1, o2]))) == Success(x)
  {
    var v := TextItem(x);
    NonTextItemIgnored([v], o1, [o2]);
    assert [v] + [o1] + [o2] == [v, o1, o2] && [v] + [o2] == [v, o2];
    NonTextItemIgnored([v], o2, []);
    assert [v] + [o2] + [] == [v, o2] && [v] + [] == [v];
    OneTextItem(x);
  }

  /** A single text item gives its text. */
  lemma OneTextItem(x: string)
    requires x != ""
    ensures ExtractMessageContent(Some(NestedArray([TextItem(x)]))) == Success(x)
  {
    var v := TextItem(x);
    NestedArraySource([v]);
    assert Get(v, "type") == Some(JStr("text")) && Get(v, "text") == Some(JStr(x));
    assert [v][1..] == [];
    assert TextValues([v]) == [JStr(x)];
    assert Strings([JStr(x)]) == [x];
  }

  /** Text items of a nested array are joined with a space. */
  lemma ArrayTextJoined()
    ensures ExtractMessageContent(Some(NestedArray([TextItem("First part"), TextItem("Second part")])))
      == Success("First part Second part")
  {
    var x, y := "First part", "Second part";
    TwoTextItems(x, y);
    SpacedFirstSecond();
  }

  /** Items of another type are dropped. */
  lemma ArrayNonTextDropped()
    ensures ExtractMessageContent(Some(NestedArray([TextItem("Text content"),
      JObj(map["type" := JStr("tool_use"), "id" := JStr("123"), "name" := JStr("calculator")]),
      TextItem("More text")]))) == Success("Text content More text")
  {
    var x, y := "Text content", "More text";
    var tool := JObj(map["type" := JStr("tool_use"), "id" := JStr("123"), "name" := JStr("calculator")]);
    assert Get(tool, "type") == Some(JStr("tool_use"));
    TextItemsAround(x, tool, y);
    SpacedTextMore();
  }

  /** Text items without text, and items of another type, are dropped. */
  lemma ArrayMissingTextDropped()
    ensures ExtractMessageContent(Some(NestedArray([TextItem("Valid"), JObj(map["type" := JStr("text")]),
      JObj(map["type" := JStr("other"), "text" := JStr("Invalid type")])]))) == Success("Valid")
  {
    var missing := JObj(map["type" := JStr("text")]);
    var other := JObj(map["type" := JStr("other"), "text" := JStr("Invalid type")]);
    assert Get(other, "type") == Some(JStr("other"));
    assert Get(missing, "text").None?;
    TextItemThenOthers("Valid", missing, other);
  }

  /** A record with none of the fields the extraction reads yields "". */
  lemma NoKnownField(fields: map<string, Json>)
    requires "content" !in fields && "text" !in fields && "summary" !in fields && "message" !in fields
    ensures ExtractMessageContent(Some(JObj(fields))) == Success("")
  {
  }

  /** Non-string `content` and `text` are ignored, not coerced. */
  lemma TypeSafety()
    ensures ExtractMessageContent(Some(JObj(map["content" := JNum("123")]))) == Success("")
    ensures ExtractMessageContent(Some(JObj(map["content" := JObj(map["nested" := JStr("object")])]))) == Success("")
    ensures ExtractMessageContent(Some(JObj(map["text" := JArr([JStr("array")])]))) == Success("")
  {
    var empty: map<string, Json> := map[];
    NonStringFieldSkipped(empty, "content", JNum("123"));
    NonStringFieldSkipped(empty, "content", JObj(map["nested" := JStr("object")]));
    NonStringFieldSkipped(empty, "text", JArr([JStr("array")]));
    assert empty - {"content"} == empty && empty - {"text"} == empty;
    NoKnownField(empty);
  }

  /** Records without any known field yield "". */
  lemma Fallback()
    ensures ExtractMessageContent(Some(JObj(map["unknown" := JStr("field")]))) == Success("")
    ensures ExtractMessageContent(Some(JObj(map["id" := JNum("123"),
      "metadata" := JObj(map["timestamp" := JStr("2024-01-01")]), "data" := JObj(map["foo" := JStr("bar")])])))
      == Success("")
  {
    var a := map["unknown" := JStr("field")];
    assert "content" !in a && "text" !in a && "summary" !in a && "message" !in a;
    NoKnownField(a);
    var b := map["id" := JNum("123"), "metadata" := JObj(map["timestamp" := JStr("2024-01-01")]),
      "data" := JObj(map["foo" := JStr("bar")])];
    assert "content" !in b && "text" !in b && "summary" !in b && "message" !in b;
    NoKnownField(b);
  }

  /** A flat assistant message of the chat API. */
  lemma ChatFlatMessage()
    ensures ExtractMessageContent(Some(JObj(map["role" := JStr("assistant"), "content" := JStr("Claude response")])))
      == Success("Claude response")
  {
    ContentWins(map["role" := JStr("assistant")], "Claude response");
    assert map["role" := JStr("assistant")]["content" := JStr("Claude response")]
      == map["role" := JStr("assistant"), "content" := JStr("Claude response")];
  }

  /** A chat record `{ message: { role, content: items } }`: the role beside the
      nested content changes nothing. */
  lemma NestedWithRole(role: string, items: seq<Json>)
    ensures ExtractMessageContent(Some(JObj(map["message" := JObj(map["role" := JStr(role), "content" := JArr(items)])])))
      == ExtractMessageContent(Some(NestedArray(items)))
  {
    var inner := JObj(map["role" := JStr(role), "content" := JArr(items)]);
    var m := JObj(map["message" := inner]);
    assert Get(m, "content").None? && Get(m, "text").None? && Get(m, "summary").None?;
    assert Get(m, "message") == Some(inner) && Get(inner, "content") == Some(JArr(items));
    assert SourceOf(Some(m)) == Parts(items);
    NestedArraySource(items);
  }

  /** A tool-use message of the chat API: the tool block is dropped. */
  lemma ChatToolUse()
    ensures ExtractMessageContent(Some(JObj(map["message" := JObj(map[
      "role" := JStr("assistant"),
      "content" := JArr([
        TextItem("Let me calculate that."),
        JObj(map["type" := JStr("tool_use"), "id" := JStr("calc_123"), "name" := JStr("calculator"),
                 "input" := JObj(map["expression" := JStr("2+2")])]),
        TextItem("The answer is 4.")])])])))
      == Success("Let me calculate that. The answer is 4.")
  {
    var x, y := "Let me calculate that.", "The answer is 4.";
    var tool := JObj(map["type" := JStr("tool_use"), "id" := JStr("calc_123"), "name" := JStr("calculator"),
                         "input" := JObj(map["expression" := JStr("2+2")])]);
    assert Get(tool, "type") == Some(JStr("tool_use"));
    NestedWithRole("assistant", [TextItem(x), tool, TextItem(y)]);
    TextItemsAround(x, tool, y);
    SpacedCalculate();
  }

  /** A multimodal message: the image block is dropped. */
  lemma ChatMultimodal()
    ensures ExtractMessageContent(Some(NestedArray([TextItem("Here is an image:"),
      JObj(map["type" := JStr("image"), "source" := JObj(map["type" := JStr("base64"), "data" := JStr("...")])]),
      TextItem("What do you see?")])))
      == Success("Here is an image: What do you see?")
  {
    var x, y := "Here is an image:", "What do you see?";
    var image := JObj(map["type" := JStr("image"), "source" := JObj(map["type" := JStr("base64"), "data" := JStr("...")])]);
    assert Get(image, "type") == Some(JStr("image"));
    TextItemsAround(x, image, y);
    SpacedImage();
  }

  /** An empty array, and an array without text items, yield "". */
  lemma EmptyContent()
    ensures ExtractMessageContent(Some(NestedArray([]))) == Success("")
    ensures ExtractMessageContent(Some(NestedArray([JObj(map["type" := JStr("tool_use"), "id" := JStr("123")]),
      JObj(map["type" := JStr("image"), "url" := JStr("http://example.com")])]))) == Success("")
  {
    NoTextItemsEmpty([]);
    var items := [JObj(map["type" := JStr("tool_use"), "id" := JStr("123")]),
      JObj(map["type" := JStr("image"), "url" := JStr("http://example.com")])];
    assert Get(items[0], "type") == Some(JStr("tool_use"));
    assert Get(items[1], "type") == Some(JStr("image"));
    NoTextItemsEmpty(items);
  }

  // The joined strings the tests expect, spelled out.

  lemma SpacedFirstSecond()
    ensures "First part" + " " + "Second part" == "First part Second part"
  {
  }

  lemma SpacedTextMore()
    ensures "Text content" + " " + "More text" == "Text content More text"
  {
  }

  lemma SpacedCalculate()
    ensures "Let me calculate that." + " " + "The answer is 4." == "Let me calculate that. The answer is 4."
  {
  }

  lemma SpacedImage()
    ensures "Here is an image:" + " " + "What do you see?" == "Here is an image: What do you see?"
  {
  }
}
