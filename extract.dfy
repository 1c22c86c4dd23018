/** `extractMessageContent`: the text of one transcript record, found by probing its
    fields in a fixed priority order. */
module MessageContent {
  import opened Wrappers
  import opened JsonValue

  /** Where the text of a record comes from, once the priority rules have been applied:
      a string field, the items of a nested `message.content` array, or nowhere. */
  datatype TextSource = Direct(s: string) | Parts(items: seq<Json>) | NoText

  /** The priority chain: a non-empty string `content`, then `text`, then `summary`,
      then a truthy `message.content` that is a string or an array. A falsy record
      (null, false, 0, "", undefined) has no text. */
  function SourceOf(message: Option<Json>): (r: TextSource)
    ensures !TruthyOpt(message) ==> r == NoText
    ensures r.Direct? ==> r.s != ""
  {
    if !TruthyOpt(message) then NoText
    else
      var m := message.value;
      if IsTruthyString(Get(m, "content")) then Direct(Get(m, "content").value.s)
      else if IsTruthyString(Get(m, "text")) then Direct(Get(m, "text").value.s)
      else if IsTruthyString(Get(m, "summary")) then Direct(Get(m, "summary").value.s)
      else
        var nested := GetOpt(Get(m, "message"), "content");
        if !TruthyOpt(nested) then NoText
        else match nested.value
          case JStr(s) => Direct(s)
          case JArr(items) => Parts(items)
          case _ => NoText
  }

  /** `item?.type === 'text' && item?.text`: an array item that contributes its text. */
  predicate IsTextItem(item: Json) {
    Get(item, "type") == Some(JStr("text")) && TruthyOpt(Get(item, "text"))
  }

  /** `.filter(isTextItem).map(item => item.text)`. */
  function TextValues(items: seq<Json>): (r: seq<Json>)
    ensures |r| <= |items|
  {
    if items == [] then []
    else (if IsTextItem(items[0]) then [Get(items[0], "text").value] else []) + TextValues(items[1..])
  }

  /** extractMessageContent(message), as the code is written: the items' texts are joined
      with `Array.prototype.join`, which converts a non-string text to a string and
      raises a TypeError for an object carrying its own `toString` key. */
  function ExtractMessageContent(message: Option<Json>): (r: Result<string, JsError>)
    ensures !TruthyOpt(message) ==> r == Success("")
    ensures r.Failure? ==> SourceOf(message).Parts?
  {
    match SourceOf(message)
    case Direct(s) => Success(s)
    case Parts(items) => JoinValues(TextValues(items), " ")
    case NoText => Success("")
  }

  /** An item whose text is a non-empty string. */
  predicate IsStringTextItem(item: Json) {
    Get(item, "type") == Some(JStr("text")) && IsTruthyString(Get(item, "text"))
  }

  /** The string texts of the text items, in order. */
  function StringTexts(items: seq<Json>): (r: seq<string>)
    ensures |r| <= |items|
    ensures forall i :: 0 <= i < |r| ==> r[i] != ""
  {
    if items == [] then []
    else (if IsStringTextItem(items[0]) then [Get(items[0], "text").value.s] else []) + StringTexts(items[1..])
  }

  /** The extraction as the module's contract states it, total over every JSON value:
      like ExtractMessageContent, but an item's text qualifies only when it is a
      string, so nothing is ever coerced. */
  function ExtractText(message: Option<Json>): (r: string)
    ensures !TruthyOpt(message) ==> r == ""
  {
    match SourceOf(message)
    case Direct(s) => s
    case Parts(items) => Join(StringTexts(items), " ")
    case NoText => ""
  }

  // ---------------------------------------------------------------------------
  // Priority among the fields

  /** A non-empty string `content` wins whatever the other fields hold. */
  lemma ContentWins(fields: map<string, Json>, c: string)
    requires c != ""
    ensures ExtractMessageContent(Some(JObj(fields["content" := JStr(c)]))) == Success(c)
    ensures ExtractText(Some(JObj(fields["content" := JStr(c)]))) == c
  {
  }

  /** Without a qualifying `content`, a non-empty string `text` wins over `summary` and
      the nested message. */
  lemma TextWinsOverSummary(fields: map<string, Json>, t: string)
    requires t != "" && !IsTruthyString(Get(JObj(fields), "content"))
    ensures ExtractMessageContent(Some(JObj(fields["text" := JStr(t)]))) == Success(t)
  {
    assert Get(JObj(fields["text" := JStr(t)]), "content") == Get(JObj(fields), "content");
  }

  /** Without a qualifying `content` or `text`, a non-empty string `summary` wins over
      the nested message. */
  lemma SummaryWinsOverNested(fields: map<string, Json>, s: string)
    requires s != ""
    requires !IsTruthyString(Get(JObj(fields), "content")) && !IsTruthyString(Get(JObj(fields), "text"))
    ensures ExtractMessageContent(Some(JObj(fields["summary" := JStr(s)]))) == Success(s)
  {
    var m := JObj(fields["summary" := JStr(s)]);
    assert Get(m, "content") == Get(JObj(fields), "content");
    assert Get(m, "text") == Get(JObj(fields), "text");
  }

  /** A `content`, `text` or `summary` that is not a non-empty string is skipped, not
      coerced: the record extracts exactly as if the field were absent. */
  lemma NonStringFieldSkipped(fields: map<string, Json>, key: string, v: Json)
    requires key == "content" || key == "text" || key == "summary"
    requires !IsTruthyString(Some(v))
    ensures SourceOf(Some(JObj(fields[key := v]))) == SourceOf(Some(JObj(fields - {key})))
    ensures ExtractMessageContent(Some(JObj(fields[key := v]))) == ExtractMessageContent(Some(JObj(fields - {key})))
  {
    var a, b := JObj(fields[key := v]), JObj(fields - {key});
    assert Get(a, "message") == Get(b, "message");
    assert key != "content" ==> Get(a, "content") == Get(b, "content");
    assert key != "text" ==> Get(a, "text") == Get(b, "text");
    assert key != "summary" ==> Get(a, "summary") == Get(b, "summary");
  }

  /** With no top-level field qualifying, a non-empty string `message.content` is
      returned verbatim. */
  lemma NestedStringVerbatim(fields: map<string, Json>, inner: map<string, Json>, s: string)
    requires s != ""
    requires !IsTruthyString(Get(JObj(fields), "content"))
    requires !IsTruthyString(Get(JObj(fields), "text"))
    requires !IsTruthyString(Get(JObj(fields), "summary"))
    ensures ExtractMessageContent(Some(JObj(fields["message" := JObj(inner["content" := JStr(s)])]))) == Success(s)
  {
    var m := JObj(fields["message" := JObj(inner["content" := JStr(s)])]);
    assert Get(m, "content") == Get(JObj(fields), "content");
    assert Get(m, "text") == Get(JObj(fields), "text");
    assert Get(m, "summary") == Get(JObj(fields), "summary");
  }

  // ---------------------------------------------------------------------------
  // The nested array

  lemma {:induction false} TextValuesAppend(a: seq<Json>, b: seq<Json>)
    ensures TextValues(a + b) == TextValues(a) + TextValues(b)
  {
    if a == [] {
      assert a + b == b;
    } else {
      var h := if IsTextItem(a[0]) then [Get(a[0], "text").value] else [];
      assert (a + b)[0] == a[0] && (a + b)[1..] == a[1..] + b;
      assert TextValues(a + b) == h + TextValues(a[1..] + b);
      assert TextValues(a) == h + TextValues(a[1..]);
      TextValuesAppend(a[1..], b);
      assert h + (TextValues(a[1..]) + TextValues(b)) == (h + TextValues(a[1..])) + TextValues(b);
    }
  }

  /** The texts come from exactly the qualifying items, in their order: a qualifying
      item contributes its text at its place, any other item contributes nothing. */
  lemma TextValuesAround(a: seq<Json>, x: Json, b: seq<Json>)
    ensures TextValues(a + [x] + b) ==
      TextValues(a) + (if IsTextItem(x) then [Get(x, "text").value] else []) + TextValues(b)
  {
    TextValuesAppend(a + [x], b);
    TextValuesAppend(a, [x]);
    assert [x][1..] == [];
  }

  /** A record whose text comes from a nested array.  */
  function NestedArray(items: seq<Json>): Json {
    JObj(map["message" := JObj(map["content" := JArr(items)])])
  }

  /** A record holding nothing but a nested array takes its text from the array. */
  lemma NestedArraySource(items: seq<Json>)
    ensures SourceOf(Some(NestedArray(items))) == Parts(items)
  {
    var m := NestedArray(items);
    assert Get(m, "content").None? && Get(m, "text").None? && Get(m, "summary").None?;
    assert Get(m, "message") == Some(JObj(map["content" := JArr(items)]));
  }

  /** Inserting an item that is not a text item, or has no text, changes nothing. */
  lemma NonTextItemIgnored(a: seq<Json>, x: Json, b: seq<Json>)
    requires !IsTextItem(x)
    ensures ExtractMessageContent(Some(NestedArray(a + [x] + b))) == ExtractMessageContent(Some(NestedArray(a + b)))
  {
    NestedArraySource(a + [x] + b);
    NestedArraySource(a + b);
    TextValuesAround(a, x, b);
    TextValuesAppend(a, b);
    assert TextValues(a) + [] + TextValues(b) == TextValues(a) + TextValues(b);
    assert TextValues(a + [x] + b) == TextValues(a + b);
  }

  lemma {:induction false} NoTextItemsNoValues(items: seq<Json>)
    requires forall i :: 0 <= i < |items| ==> !IsTextItem(items[i])
    ensures TextValues(items) == []
  {
    if items != [] {
      NoTextItemsNoValues(items[1..]);
    }
  }

  /** An empty array, or one without a qualifying item, yields "". */
  lemma NoTextItemsEmpty(items: seq<Json>)
    requires forall i :: 0 <= i < |items| ==> !IsTextItem(items[i])
    ensures ExtractMessageContent(Some(NestedArray(items))) == Success("")
  {
    NestedArraySource(items);
    NoTextItemsNoValues(items);
  }

  lemma {:induction false} StringTextsAgree(items: seq<Json>)
    requires forall i :: 0 <= i < |items| ==> IsTextItem(items[i]) ==> Get(items[i], "text").value.JStr?
    ensures var vs := TextValues(items);
      && (forall i :: 0 <= i < |vs| ==> vs[i].JStr?)
      && Strings(vs) == StringTexts(items)
  {
    if items != [] {
      StringTextsAgree(items[1..]);
      var vs, rest := TextValues(items), TextValues(items[1..]);
      if IsTextItem(items[0]) {
        assert vs == [Get(items[0], "text").value] + rest;
        assert Strings(vs) == [vs[0].s] + Strings(rest);
      } else {
        assert vs == rest;
      }
    }
  }

  /** Whenever every qualifying item's text is a string, the code as written and the
      total extraction agree, and the code does not throw. */
  lemma ExtractTextAgrees(message: Option<Json>)
    requires SourceOf(message).Parts? ==>
      var items := SourceOf(message).items;
      forall i :: 0 <= i < |items| ==> IsTextItem(items[i]) ==> Get(items[i], "text").value.JStr?
    ensures ExtractMessageContent(message) == Success(ExtractText(message))
  {
    if SourceOf(message).Parts? {
      StringTextsAgree(SourceOf(message).items);
    }
  }

  /** The code throws only when some qualifying text cannot be converted to a string. */
  lemma ExtractFailsOnlyOnConversion(message: Option<Json>)
    requires ExtractMessageContent(message).Failure?
    ensures SourceOf(message).Parts?
    ensures var vs := TextValues(SourceOf(message).items);
      exists i :: 0 <= i < |vs| && JoinElement(vs[i]).Failure?
  {
    var items := SourceOf(message).items;
    assert ExtractMessageContent(message) == JoinValues(TextValues(items), " ");
  }

  /** A text item whose text is an object with its own `toString` key: the as-written
      extraction throws, the total one skips the item. */
  lemma UnconvertibleTextThrows()
    ensures var item := JObj(map["type" := JStr("text"), "text" := JObj(map["toString" := JNum("1")])]);
      && ExtractMessageContent(Some(NestedArray([item]))).Failure?
      && ExtractText(Some(NestedArray([item]))) == ""
  {
    var text := JObj(map["toString" := JNum("1")]);
    var item := JObj(map["type" := JStr("text"), "text" := text]);
    NestedArraySource([item]);
    assert Get(item, "type") == Some(JStr("text")) && Get(item, "text") == Some(text);
    assert TextValues([item]) == [text];
    assert StringTexts([item]) == [];
    assert JoinElement(text).Failure?;
  }
}
