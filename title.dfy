/** Add-on, outside the server: the title a session card shows. The card component
    itself is not part of this model; the rule below is the one its tests pin down:
    the text of the first user message that has any, or "Untitled Session" when there
    is none. */
module SessionTitle {
  import opened Wrappers
  import opened JsonValue
  import opened MessageContent

  const Untitled := "Untitled Session"

  /** A message written by the user. */
  predicate IsUserMessage(m: Json) {
    Get(m, "role") == Some(JStr("user"))
  }

  /** A user message from which some text can be extracted. */
  predicate GivesTitle(m: Json) {
    IsUserMessage(m) && ExtractText(Some(m)) != ""
  }

  /** The index of the first message from i on that gives a title. */
  function FirstTitled(msgs: seq<Json>, i: nat): (r: Option<nat>)
    requires i <= |msgs|
    ensures r.Some? ==> i <= r.value < |msgs| && GivesTitle(msgs[r.value])
    ensures r.Some? ==> forall k :: i <= k < r.value ==> !GivesTitle(msgs[k])
    ensures r.None? ==> forall k :: i <= k < |msgs| ==> !GivesTitle(msgs[k])
    decreases |msgs| - i
  {
    if i == |msgs| then None
    else if GivesTitle(msgs[i]) then Some(i)
    else FirstTitled(msgs, i + 1)
  }

  /** The card title. */
  function CardTitle(msgs: seq<Json>): string
  {
    match FirstTitled(msgs, 0)
    case None => Untitled
    case Some(k) => ExtractText(Some(msgs[k]))
  }

  /** The title is the text of the first user message that has any text, whatever
      comes after it. */
  lemma TitleOfFirstUser(msgs: seq<Json>, k: nat)
    requires k < |msgs| && GivesTitle(msgs[k])
    requires forall j :: 0 <= j < k ==> !GivesTitle(msgs[j])
    ensures CardTitle(msgs) == ExtractText(Some(msgs[k]))
  {
    var first := FirstTitled(msgs, 0);
    assert first.Some? && first.value == k;
  }

  /** Without a user message that has text, the card is untitled: messages of other
      roles, tool calls among them, never give the title. */
  lemma UntitledWithoutUser(msgs: seq<Json>)
    requires forall j :: 0 <= j < |msgs| ==> !GivesTitle(msgs[j])
    ensures CardTitle(msgs) == Untitled
  {
  }

  /** Messages ahead of the first user message with text change nothing, whether they
      come from another role or are user messages without text. */
  lemma TitleSkipsLeading(lead: seq<Json>, rest: seq<Json>)
    requires forall j :: 0 <= j < |lead| ==> !GivesTitle(lead[j])
    ensures CardTitle(lead + rest) == CardTitle(rest)
  {
    var msgs := lead + rest;
    match FirstTitled(rest, 0)
    case None =>
      forall j | 0 <= j < |msgs|
        ensures !GivesTitle(msgs[j])
      {
        if j >= |lead| {
          assert msgs[j] == rest[j - |lead|];
        }
      }
    case Some(k) =>
      assert msgs[|lead| + k] == rest[k];
      forall j | 0 <= j < |lead| + k
        ensures !GivesTitle(msgs[j])
      {
        if j >= |lead| {
          assert msgs[j] == rest[j - |lead|];
        }
      }
      TitleOfFirstUser(msgs, |lead| + k);
  }

  /** A message with a role and a string content. */
  function Said(role: string, c: string): Json {
    JObj(map["role" := JStr(role), "content" := JStr(c)])
  }

  /** The first message of a conversation opened by the user gives the title. */
  lemma UserOpens(c: string, rest: seq<Json>)
    requires c != ""
    ensures CardTitle([Said("user", c)] + rest) == c
  {
    var msgs := [Said("user", c)] + rest;
    assert Get(msgs[0], "role") == Some(JStr("user"));
    assert map["role" := JStr("user"), "content" := JStr(c)] == map["role" := JStr("user")]["content" := JStr(c)];
    ContentWins(map["role" := JStr("user")], c);
    TitleOfFirstUser(msgs, 0);
  }

  /** A session without messages is untitled. */
  lemma NoMessagesUntitled()
    ensures CardTitle([]) == Untitled
  {
    UntitledWithoutUser([]);
  }
}
