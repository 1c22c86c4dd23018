/** The preview line of the session listing: up to five messages, each shown as
    "Role: content", joined with " | " within a budget of 300 characters. */
module Preview {
  import opened Wrappers
  import opened JsonValue
  import opened Text

  const MaxPreviewLength := 300
  const MessagesToInclude := 5
  const MaxMessageLength := 100

  /** `'user'` becomes "User", `'assistant'` "Assistant", anything else "System". */
  function RoleName(v: Json): (r: string)
    ensures r == "User" <==> v == JStr("user")
    ensures r == "Assistant" <==> v == JStr("assistant")
    ensures r == "User" || r == "Assistant" || r == "System"
  {
    if v == JStr("user") then "User" else if v == JStr("assistant") then "Assistant" else "System"
  }

  /** The role label: from a truthy `role`, else from a truthy `type`, else "System". */
  function RoleLabel(msg: Json): (r: string)
    ensures TruthyOpt(Get(msg, "role")) ==> r == RoleName(Get(msg, "role").value)
    ensures !TruthyOpt(Get(msg, "role")) && TruthyOpt(Get(msg, "type")) ==> r == RoleName(Get(msg, "type").value)
    ensures !TruthyOpt(Get(msg, "role")) && !TruthyOpt(Get(msg, "type")) ==> r == "System"
  {
    var role, kind := Get(msg, "role"), Get(msg, "type");
    if TruthyOpt(role) then RoleName(role.value)
    else if TruthyOpt(kind) then RoleName(kind.value)
    else "System"
  }

  /** `c.text || ''` for each element of an array `message.content`; reading `text`
      of a `null` element throws. */
  function ItemTexts(items: seq<Json>): Result<seq<Json>, JsError>
  {
    if items == [] then Success([])
    else if items[0] == JNull then Failure(TypeError)
    else
      var t := Get(items[0], "text");
      var head := if TruthyOpt(t) then t.value else JStr("");
      match ItemTexts(items[1..])
      case Failure(e) => Failure(e)
      case Success(rest) => Success([head] + rest)
  }

  /** `c.text || ''` for one element that is not `null`. */
  function ItemText(item: Json): Json {
    var t := Get(item, "text");
    if TruthyOpt(t) then t.value else JStr("")
  }

  /** The texts fail exactly when an item is `null`; otherwise there is one per item,
      its truthy `text` or "". */
  lemma {:induction false} ItemTextsSpec(items: seq<Json>)
    ensures ItemTexts(items).Failure? <==> JNull in items
    ensures ItemTexts(items).Success? ==>
      && |ItemTexts(items).value| == |items|
      && forall i :: 0 <= i < |items| ==>
           ItemTexts(items).value[i] == ItemText(items[i])
  {
    if items != [] && items[0] != JNull {
      var tail := items[1..];
      ItemTextsSpec(tail);
      assert items == [items[0]] + tail;
      assert JNull in items <==> JNull in tail;
      if ItemTexts(tail).Success? {
        var rest := ItemTexts(tail).value;
        var head := ItemText(items[0]);
        assert ItemTexts(items) == Success([head] + rest);
        forall i | 1 <= i < |items|
          ensures ([head] + rest)[i] == rest[i - 1] && items[i] == tail[i - 1]
        {
        }
      }
    }
  }

  /** The content of a message before shaping: a truthy string `content`, else a
      truthy string `text`, else a truthy `summary`, else a truthy `message.content`
      (a string as it is, an array as its items' texts joined with " "), else "".
      A `summary` that is not a string has no `replace` and a `message.content` that
      is neither a string nor an array has no `map`: both throw. */
  function RawContent(msg: Json): (r: Result<string, JsError>)
    ensures IsTruthyString(Get(msg, "content")) ==> r == Success(Get(msg, "content").value.s)
    ensures !IsTruthyString(Get(msg, "content")) && IsTruthyString(Get(msg, "text")) ==>
      r == Success(Get(msg, "text").value.s)
  {
    var content, text, summary := Get(msg, "content"), Get(msg, "text"), Get(msg, "summary");
    var nested := Get(msg, "message");
    if IsTruthyString(content) then Success(content.value.s)
    else if IsTruthyString(text) then Success(text.value.s)
    else if TruthyOpt(summary) then
      if summary.value.JStr? then Success(summary.value.s) else Failure(TypeError)
    else if TruthyOpt(nested) && TruthyOpt(Get(nested.value, "content")) then
      var c := Get(nested.value, "content").value;
      if c.JStr? then Success(c.s)
      else if c.JArr? then
        match ItemTexts(c.items)
        case Failure(e) => Failure(e)
        case Success(texts) => JoinValues(texts, " ")
      else Failure(TypeError)
    else Success("")
  }

  /** Neither `content` nor `text` is a truthy string, so neither is shown. */
  predicate NoDirectText(msg: Json) {
    !IsTruthyString(Get(msg, "content")) && !IsTruthyString(Get(msg, "text"))
  }

  /** `msg.message.content` when `msg.message` and it are both truthy. */
  function NestedContent(msg: Json): (r: Option<Json>)
    ensures r.Some? ==> Truthy(r.value)
  {
    var nested := Get(msg, "message");
    if TruthyOpt(nested) && TruthyOpt(Get(nested.value, "content")) then Get(nested.value, "content") else None
  }

  /** When reading the content of a message throws: the content it falls back to is
      a truthy `summary` that is not a string (no `replace`), or a `message.content`
      that is neither a string nor an array (no `map`), or an array with a `null`
      element (no `text`) or an element whose text `join` cannot convert. */
  predicate ContentThrows(msg: Json) {
    && NoDirectText(msg)
    && if TruthyOpt(Get(msg, "summary")) then !Get(msg, "summary").value.JStr?
       else match NestedContent(msg)
         case None => false
         case Some(c) =>
           && !c.JStr?
           && (|| !c.JArr?
               || JNull in c.items
               || exists i :: 0 <= i < |c.items| && JoinElement(ItemText(c.items[i])).Failure?)
  }

  /** The later rules of RawContent: a truthy string `summary`, else a string
      `message.content` as it is, else an array `message.content` as its items' texts
      joined with " ", else ""; and reading the content throws exactly in the cases
      ContentThrows names. */
  lemma RawContentSpec(msg: Json)
    ensures NoDirectText(msg) && TruthyOpt(Get(msg, "summary")) && Get(msg, "summary").value.JStr? ==>
      RawContent(msg) == Success(Get(msg, "summary").value.s)
    ensures (NoDirectText(msg) && !TruthyOpt(Get(msg, "summary")) && NestedContent(msg).Some? &&
             NestedContent(msg).value.JStr?) ==>
      RawContent(msg) == Success(NestedContent(msg).value.s)
    ensures (NoDirectText(msg) && !TruthyOpt(Get(msg, "summary")) && NestedContent(msg).Some? &&
             NestedContent(msg).value.JArr? && JNull !in NestedContent(msg).value.items) ==>
      var items := NestedContent(msg).value.items;
      RawContent(msg) == JoinValues(seq(|items|, i requires 0 <= i < |items| => ItemText(items[i])), " ")
    ensures NoDirectText(msg) && !TruthyOpt(Get(msg, "summary")) && NestedContent(msg).None? ==>
      RawContent(msg) == Success("")
    ensures RawContent(msg).Failure? <==> ContentThrows(msg)
  {
    var nc := NestedContent(msg);
    if NoDirectText(msg) && !TruthyOpt(Get(msg, "summary")) && nc.Some? && nc.value.JArr? {
      NestedArray(msg, nc.value.items);
    }
  }

  /** An array `message.content` with no `null` element is joined from its items'
      texts, and the join fails exactly when one of them cannot be converted. */
  lemma NestedArray(msg: Json, items: seq<Json>)
    requires NoDirectText(msg) && !TruthyOpt(Get(msg, "summary")) && NestedContent(msg) == Some(JArr(items))
    ensures JNull in items ==> RawContent(msg).Failure?
    ensures JNull !in items ==>
      RawContent(msg) == JoinValues(seq(|items|, i requires 0 <= i < |items| => ItemText(items[i])), " ")
    ensures RawContent(msg).Failure? <==>
      JNull in items || exists i :: 0 <= i < |items| && JoinElement(ItemText(items[i])).Failure?
  {
    ItemTextsSpec(items);
    if JNull !in items {
      var texts := ItemTexts(items).value;
      assert texts == seq(|items|, i requires 0 <= i < |items| => ItemText(items[i]));
      assert RawContent(msg) == JoinValues(texts, " ");
    }
  }

  /** `content.replace(/\n+/g, ' ').replace(/\s+/g, ' ').trim()`. */
  function Shape(c: string): (r: string)
    ensures r == CollapseTrim(c)
  {
    NewlinePassRedundant(c);
    Trim(ReplaceRuns(ReplaceRuns(c, IsNewline), IsSpace))
  }

  /** The first 100 characters and "..." when the content is longer. */
  function Truncate(c: string): (r: string)
    ensures |c| <= MaxMessageLength ==> r == c
    ensures |c| > MaxMessageLength ==> |r| == MaxMessageLength + 3 && r == c[..MaxMessageLength] + "..."
  {
    if |c| > MaxMessageLength then c[..MaxMessageLength] + "..." else c
  }

  /** `${role}: ${truncatedContent}` for one message. */
  function Segment(msg: Json): Result<string, JsError>
  {
    match RawContent(msg)
    case Failure(e) => Failure(e)
    case Success(c) => Success(RoleLabel(msg) + ": " + Truncate(Shape(c)))
  }

  /** A segment is the role label, ": " and the collapsed, trimmed content cut to 100
      characters; it fails exactly when reading the content throws. */
  lemma SegmentSpec(msg: Json)
    ensures Segment(msg).Failure? <==> RawContent(msg).Failure?
    ensures Segment(msg).Success? ==>
      Segment(msg).value == RoleLabel(msg) + ": " + Truncate(CollapseTrim(RawContent(msg).value))
    ensures Segment(msg).Success? ==> |Segment(msg).value| <= |RoleLabel(msg)| + 2 + MaxMessageLength + 3
  {
  }

  /** A tail fragment of seg: more than 20 of its characters, not all, then "...". */
  predicate IsFragment(piece: string, seg: string) {
    exists n :: 20 < n < |seg| && piece == seg[..n] + "..."
  }

  /** The segments of some messages, each with its own outcome. */
  function Segments(msgs: seq<Json>): (r: seq<Result<string, JsError>>)
    ensures |r| == |msgs|
  {
    if msgs == [] then [] else [Segment(msgs[0])] + Segments(msgs[1..])
  }

  lemma {:induction false} SegmentsAt(msgs: seq<Json>, i: nat)
    requires i < |msgs|
    ensures Segments(msgs)[i] == Segment(msgs[i])
  {
    if i > 0 {
      SegmentsAt(msgs[1..], i - 1);
    }
  }

  /** The pieces the budget loop pushes for the segments segs when cur characters of
      budget are used: whole segments while they fit, then one fragment if more than
      20 characters remain. A segment after the loop stops is never computed, so its
      failure does not matter. */
  function Pieces(segs: seq<Result<string, JsError>>, cur: int): (r: Result<seq<string>, JsError>)
    ensures r.Success? ==> |r.value| <= |segs|
  {
    if segs == [] then Success([])
    else match segs[0]
      case Failure(e) => Failure(e)
      case Success(seg) =>
        if cur + |seg| > MaxPreviewLength then
          var remaining := MaxPreviewLength - cur;
          Success(if remaining > 20 then [seg[..remaining] + "..."] else [])
        else Prepend([seg], Pieces(segs[1..], cur + |seg| + 3))
  }

  function Min(a: nat, b: nat): nat {
    if a <= b then a else b
  }

  /** The preview of a session's messages. */
  function BuildPreview(msgs: seq<Json>): (r: Result<string, JsError>)
  {
    match Pieces(Segments(msgs[..Min(|msgs|, MessagesToInclude)]), 0)
    case Failure(e) => Failure(e)
    case Success(pieces) => Success(Join(pieces, " | "))
  }

  /** The preview loop. */
  method PreviewLoop(msgs: seq<Json>) returns (r: Result<string, JsError>)
    ensures r == BuildPreview(msgs)
  {
    var shown := msgs[..Min(|msgs|, MessagesToInclude)];
    ghost var segs := Segments(shown);
    forall k | 0 <= k < |shown|
      ensures segs[k] == Segment(shown[k])
    {
      SegmentsAt(shown, k);
    }
    r := PushPieces(shown, segs, Segment);
  }

  /** The pieces of the shown messages joined with " | ", or the first error. */
  function Finish(pieces: Result<seq<string>, JsError>): Result<string, JsError> {
    match pieces
    case Failure(e) => Failure(e)
    case Success(p) => Success(Join(p, " | "))
  }

  /** The budget loop over the shown messages, each rendered by render (the preview
      passes Segment) into the segments segs. */
  method PushPieces(shown: seq<Json>, ghost segs: seq<Result<string, JsError>>, render: Json -> Result<string, JsError>)
    returns (r: Result<string, JsError>)
    requires |segs| == |shown|
    requires forall k :: 0 <= k < |shown| ==> segs[k] == render(shown[k])
    ensures r == Finish(Pieces(segs, 0))
  {
    var previewMessages: seq<string> := [];
    var currentLength := 0;
    var i := 0;
    assert segs[i..] == segs;
    PrependNothing(Pieces(segs, 0));
    assert Tracks(segs, i, previewMessages, currentLength);
    while i < |shown|
      invariant 0 <= i <= |shown|
      invariant Tracks(segs, i, previewMessages, currentLength)
    {
      var seg := render(shown[i]);
      assert seg == segs[i];
      if seg.Failure? {
        FailStep(segs, i, previewMessages, currentLength);
        return Failure(seg.error);
      }
      var msgPreview := seg.value;
      if currentLength + |msgPreview| > MaxPreviewLength {
        var remainingSpace := MaxPreviewLength - currentLength;
        StopStep(segs, i, previewMessages, currentLength, msgPreview);
        if remainingSpace > 20 {
          previewMessages := previewMessages + [msgPreview[..remainingSpace] + "..."];
        } else {
          assert previewMessages + [] == previewMessages;
        }
        return Success(Join(previewMessages, " | "));
      }
      KeepStep(segs, i, previewMessages, currentLength, msgPreview);
      previewMessages := previewMessages + [msgPreview];
      currentLength := currentLength + |msgPreview| + 3;
      i := i + 1;
    }
    assert segs[i..] == [];
    assert previewMessages + [] == previewMessages;
    return Success(Join(previewMessages, " | "));
  }

  /** After i segments, the pieces done so far and those the run still pushes with
      cur characters used make up the whole run. */
  predicate Tracks(segs: seq<Result<string, JsError>>, i: nat, done: seq<string>, cur: int)
    requires i <= |segs|
  {
    Pieces(segs, 0) == Prepend(done, Pieces(segs[i..], cur))
  }

  /** One whole segment pushed: the loop invariant holds for the next index. */
  lemma KeepStep(segs: seq<Result<string, JsError>>, i: nat, done: seq<string>, cur: int, seg: string)
    requires i < |segs| && segs[i] == Success(seg) && cur + |seg| <= MaxPreviewLength
    requires Tracks(segs, i, done, cur)
    ensures Tracks(segs, i + 1, done + [seg], cur + |seg| + 3)
  {
    assert segs[i..][1..] == segs[i + 1..];
    PiecesKeep(segs[i..], cur, seg);
    PrependTwice(done, [seg], Pieces(segs[i + 1..], cur + |seg| + 3));
  }

  /** A segment that fails ends the run with its error. */
  lemma FailStep(segs: seq<Result<string, JsError>>, i: nat, done: seq<string>, cur: int)
    requires i < |segs| && segs[i].Failure?
    requires Tracks(segs, i, done, cur)
    ensures Pieces(segs, 0) == Failure(segs[i].error)
  {
    assert segs[i..][0] == segs[i];
    PiecesFail(segs[i..], cur);
  }

  /** A segment that does not fit ends the run, after a fragment of it when more than
      20 characters remain. */
  lemma StopStep(segs: seq<Result<string, JsError>>, i: nat, done: seq<string>, cur: int, seg: string)
    requires i < |segs| && segs[i] == Success(seg) && cur + |seg| > MaxPreviewLength
    requires Tracks(segs, i, done, cur)
    ensures Pieces(segs, 0) ==
      Success(done + if MaxPreviewLength - cur > 20 then [seg[..MaxPreviewLength - cur] + "..."] else [])
  {
    assert segs[i..][0] == segs[i];
    PiecesStop(segs[i..], cur, seg);
  }

  lemma PiecesFail(segs: seq<Result<string, JsError>>, cur: int)
    requires segs != [] && segs[0].Failure?
    ensures Pieces(segs, cur) == Failure(segs[0].error)
  {
  }

  lemma PiecesKeep(segs: seq<Result<string, JsError>>, cur: int, seg: string)
    requires segs != [] && segs[0] == Success(seg) && cur + |seg| <= MaxPreviewLength
    ensures Pieces(segs, cur) == Prepend([seg], Pieces(segs[1..], cur + |seg| + 3))
  {
  }

  lemma PiecesStop(segs: seq<Result<string, JsError>>, cur: int, seg: string)
    requires segs != [] && segs[0] == Success(seg) && cur + |seg| > MaxPreviewLength
    ensures Pieces(segs, cur) ==
      Success(if MaxPreviewLength - cur > 20 then [seg[..MaxPreviewLength - cur] + "..."] else [])
  {
  }

  lemma PrependNothing(r: Result<seq<string>, JsError>)
    ensures Prepend([], r) == r
  {
    if r.Success? {
      assert [] + r.value == r.value;
    }
  }

  lemma PrependTwice(a: seq<string>, b: seq<string>, r: Result<seq<string>, JsError>)
    ensures Prepend(a, Prepend(b, r)) == Prepend(a + b, r)
  {
    if r.Success? {
      assert a + (b + r.value) == (a + b) + r.value;
    }
  }

  /** Pieces already pushed, in front of the rest of the run. */
  function Prepend(done: seq<string>, rest: Result<seq<string>, JsError>): Result<seq<string>, JsError> {
    match rest
    case Failure(e) => Failure(e)
    case Success(p) => Success(done + p)
  }

  // ---------------------------------------------------------------------------
  // What the preview promises

  /** Pieces taken with cur characters used never reach past 303. */
  lemma {:induction false} PiecesLength(segs: seq<Result<string, JsError>>, cur: nat)
    requires Pieces(segs, cur).Success? && Pieces(segs, cur).value != []
    ensures cur + |Join(Pieces(segs, cur).value, " | ")| <= MaxPreviewLength + 3
  {
    var seg := segs[0].value;
    if cur + |seg| <= MaxPreviewLength {
      var rest := Pieces(segs[1..], cur + |seg| + 3);
      assert Pieces(segs, cur).value == [seg] + rest.value;
      if rest.value != [] {
        PiecesLength(segs[1..], cur + |seg| + 3);
        assert ([seg] + rest.value)[1..] == rest.value;
      }
    }
  }

  /** The preview is at most 300 characters and "...". */
  lemma PreviewLength(msgs: seq<Json>)
    requires BuildPreview(msgs).Success?
    ensures |BuildPreview(msgs).value| <= MaxPreviewLength + 3
  {
    var segs := Segments(msgs[..Min(|msgs|, MessagesToInclude)]);
    if Pieces(segs, 0).value != [] {
      PiecesLength(segs, 0);
    }
  }

  /** Each piece is its segment whole, except that the last may be a fragment of it;
      every segment up to the last piece was computed without error. */
  lemma {:induction false} PiecesShape(segs: seq<Result<string, JsError>>, cur: int, i: nat)
    requires Pieces(segs, cur).Success? && i < |Pieces(segs, cur).value|
    ensures var p := Pieces(segs, cur).value;
      && segs[i].Success?
      && (p[i] == segs[i].value || (i == |p| - 1 && IsFragment(p[i], segs[i].value)))
  {
    var seg := segs[0].value;
    if cur + |seg| <= MaxPreviewLength {
      var rest := Pieces(segs[1..], cur + |seg| + 3);
      assert Pieces(segs, cur).value == [seg] + rest.value;
      if i > 0 {
        PiecesShape(segs[1..], cur + |seg| + 3, i - 1);
      }
    } else {
      var n := MaxPreviewLength - cur;
      assert 20 < n < |seg| && Pieces(segs, cur).value[0] == seg[..n] + "...";
    }
  }

  /** The preview shows at most five pieces, one per message; each is "Role: text"
      whole, but the last may be cut. */
  lemma PreviewPieces(msgs: seq<Json>, i: nat)
    requires Pieces(Segments(msgs[..Min(|msgs|, MessagesToInclude)]), 0).Success?
    ensures var p := Pieces(Segments(msgs[..Min(|msgs|, MessagesToInclude)]), 0).value;
      && |p| <= MessagesToInclude
      && (i < |p| ==>
          && i < |msgs|
          && Segment(msgs[i]).Success?
          && (p[i] == Segment(msgs[i]).value || (i == |p| - 1 && IsFragment(p[i], Segment(msgs[i]).value))))
  {
    var shown := msgs[..Min(|msgs|, MessagesToInclude)];
    var p := Pieces(Segments(shown), 0).value;
    if i < |p| {
      PiecesShape(Segments(shown), 0, i);
      SegmentsAt(shown, i);
      assert shown[i] == msgs[i];
    }
  }

  /** A failing run stopped at a segment that failed, after segments that did not. */
  lemma {:induction false} PiecesFailure(segs: seq<Result<string, JsError>>, cur: int) returns (k: nat)
    requires Pieces(segs, cur).Failure?
    ensures k < |segs| && segs[k] == Failure(Pieces(segs, cur).error)
    ensures forall j :: 0 <= j < k ==> segs[j].Success?
  {
    if segs[0].Failure? {
      k := 0;
    } else {
      var seg := segs[0].value;
      var k' := PiecesFailure(segs[1..], cur + |seg| + 3);
      k := k' + 1;
      assert forall j :: 1 <= j < k ==> segs[j] == segs[1..][j - 1];
    }
  }

  /** When every segment can be computed, so can the pieces. */
  lemma {:induction false} PiecesSucceed(segs: seq<Result<string, JsError>>, cur: int)
    requires forall j :: 0 <= j < |segs| ==> segs[j].Success?
    ensures Pieces(segs, cur).Success?
  {
    if segs != [] && cur + |segs[0].value| <= MaxPreviewLength {
      PiecesSucceed(segs[1..], cur + |segs[0].value| + 3);
    }
  }

  /** The preview fails only by an error in the content of one of the first five
      messages, and it cannot fail when none of them has one. */
  lemma PreviewFailure(msgs: seq<Json>)
    ensures BuildPreview(msgs).Failure? ==>
      exists k :: 0 <= k < Min(|msgs|, MessagesToInclude) && RawContent(msgs[k]).Failure?
    ensures (forall k :: 0 <= k < Min(|msgs|, MessagesToInclude) ==> RawContent(msgs[k]).Success?) ==>
      BuildPreview(msgs).Success?
  {
    var shown := msgs[..Min(|msgs|, MessagesToInclude)];
    var segs := Segments(shown);
    if Pieces(segs, 0).Failure? {
      var k := PiecesFailure(segs, 0);
      SegmentsAt(shown, k);
      SegmentSpec(shown[k]);
      assert shown[k] == msgs[k];
    }
    if forall k :: 0 <= k < Min(|msgs|, MessagesToInclude) ==> RawContent(msgs[k]).Success? {
      forall j | 0 <= j < |segs|
        ensures segs[j].Success?
      {
        SegmentsAt(shown, j);
        SegmentSpec(shown[j]);
        assert shown[j] == msgs[j];
      }
      PiecesSucceed(segs, 0);
    }
  }

  /** A session without messages has an empty preview. */
  lemma PreviewOfNothing()
    ensures BuildPreview([]) == Success("")
  {
    var none: seq<Json> := [];
    assert none[..Min(|none|, MessagesToInclude)] == [];
  }
}
