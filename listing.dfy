/** `/api/sessions`: the collected sessions, most recent first, each with its
    message count and preview; the total, and the first fifty. */
module Listing {
  import opened Wrappers
  import opened JsonValue
  import opened Storage
  import opened Sessions
  import opened Preview
  import opened Sorting

  /** How many sessions one response carries. */
  const PageSize := 50

  /** A session with what the listing adds to it. */
  datatype ListedSession = ListedSession(session: Session, messageCount: nat, preview: string)

  /** The response body `{ total, sessions }`. */
  datatype SessionPage = SessionPage(total: nat, sessions: seq<ListedSession>)

  /** The preview and the count of one session; fails when its preview does. */
  function WithMeta(s: Session): (r: Result<ListedSession, JsError>)
    ensures r.Success? <==> BuildPreview(s.messages).Success?
    ensures r.Success? ==> r.value.session == s && r.value.messageCount == |s.messages|
  {
    match BuildPreview(s.messages)
    case Failure(e) => Failure(e)
    case Success(p) => Success(ListedSession(s, |s.messages|, p))
  }

  /** `sessions.map(...)`: every session with its meta, in order, or the first error. */
  function AllMeta(ss: seq<Session>): (r: Result<seq<ListedSession>, JsError>)
  {
    if ss == [] then Success([])
    else match WithMeta(ss[0])
      case Failure(e) => Failure(e)
      case Success(m) => PrependMeta([m], AllMeta(ss[1..]))
  }

  function PrependMeta(done: seq<ListedSession>, rest: Result<seq<ListedSession>, JsError>): Result<seq<ListedSession>, JsError> {
    match rest
    case Failure(e) => Failure(e)
    case Success(p) => Success(done + p)
  }

  function Min(a: nat, b: nat): nat {
    if a <= b then a else b
  }

  /** The listing of the sessions the filter keeps. */
  function ListSessions(env: Env, filter: Option<string>, dirs: seq<DirEntry>): Result<SessionPage, JsError>
  {
    match AllMeta(SortDesc(env, CollectSessions(dirs, filter, env.now)))
    case Failure(e) => Failure(e)
    case Success(all) => Success(SessionPage(|all|, all[..Min(PageSize, |all|)]))
  }

  /** The endpoint: collect, sort in place, add the metadata, cut the page. */
  method SessionsEndpoint(env: Env, filter: Option<string>, dirs: seq<DirEntry>) returns (r: Result<SessionPage, JsError>)
    ensures r == ListSessions(env, filter, dirs)
  {
    var collected := CollectSessions(dirs, filter, env.now);
    var a := new Session[|collected|](k requires 0 <= k < |collected| => collected[k]);
    assert a[..] == collected;
    SortSessions(env, a);
    var sorted := a[..];
    var metas := AddMeta(sorted);
    match metas
    case Failure(e) =>
      r := Failure(e);
    case Success(all) =>
      r := Success(SessionPage(|all|, all[..Min(PageSize, |all|)]));
  }

  /** The `sessions.map(...)` loop: each session in turn gets its count and preview. */
  method AddMeta(sorted: seq<Session>) returns (r: Result<seq<ListedSession>, JsError>)
    ensures r == AllMeta(sorted)
  {
    var metas: seq<ListedSession> := [];
    var i := 0;
    assert sorted[i..] == sorted;
    PrependNothing(AllMeta(sorted));
    while i < |sorted|
      invariant 0 <= i <= |sorted|
      invariant AllMeta(sorted) == PrependMeta(metas, AllMeta(sorted[i..]))
    {
      var s := sorted[i];
      var preview := PreviewLoop(s.messages);
      MetaStep(sorted, i, metas);
      if preview.Failure? {
        return Failure(preview.error);
      }
      metas := metas + [ListedSession(s, |s.messages|, preview.value)];
      i := i + 1;
    }
    assert sorted[i..] == [];
    assert metas + [] == metas;
    return Success(metas);
  }

  lemma PrependNothing(r: Result<seq<ListedSession>, JsError>)
    ensures PrependMeta([], r) == r
  {
    if r.Success? {
      assert [] + r.value == r.value;
    }
  }

  /** One session of the map: its meta joins the done ones, or its error ends the run. */
  lemma MetaStep(ss: seq<Session>, i: nat, done: seq<ListedSession>)
    requires i < |ss|
    ensures var s := ss[i];
      PrependMeta(done, AllMeta(ss[i..])) ==
        match BuildPreview(s.messages)
        case Failure(e) => Failure(e)
        case Success(p) => PrependMeta(done + [ListedSession(s, |s.messages|, p)], AllMeta(ss[i + 1..]))
  {
    var t := ss[i..];
    assert t != [] && t[0] == ss[i] && t[1..] == ss[i + 1..];
    var rest := AllMeta(ss[i + 1..]);
    var p := BuildPreview(ss[i].messages);
    if p.Failure? {
      assert WithMeta(ss[i]) == Failure(p.error);
      assert AllMeta(t) == Failure(p.error);
    } else {
      var m := ListedSession(ss[i], |ss[i].messages|, p.value);
      assert WithMeta(ss[i]) == Success(m);
      assert AllMeta(t) == PrependMeta([m], rest);
      if rest.Success? {
        assert done + ([m] + rest.value) == (done + [m]) + rest.value;
      }
    }
  }

  // ---------------------------------------------------------------------------
  // What the listing promises

  /** The map keeps every session, in order, with its count and preview; it fails
      exactly when some session's preview does. */
  lemma {:induction false} AllMetaSpec(ss: seq<Session>)
    ensures AllMeta(ss).Failure? <==> exists k :: 0 <= k < |ss| && BuildPreview(ss[k].messages).Failure?
    ensures AllMeta(ss).Success? ==>
      && |AllMeta(ss).value| == |ss|
      && forall k :: 0 <= k < |ss| ==>
           AllMeta(ss).value[k] == ListedSession(ss[k], |ss[k].messages|, BuildPreview(ss[k].messages).value)
  {
    if ss != [] {
      AllMetaSpec(ss[1..]);
      assert forall k :: 1 <= k < |ss| ==> ss[1..][k - 1] == ss[k];
      if BuildPreview(ss[0].messages).Success? && AllMeta(ss[1..]).Failure? {
        var k :| 0 <= k < |ss[1..]| && BuildPreview(ss[1..][k].messages).Failure?;
        assert BuildPreview(ss[k + 1].messages).Failure?;
      }
      if AllMeta(ss).Success? {
        var all := AllMeta(ss).value;
        assert all == [all[0]] + AllMeta(ss[1..]).value;
      }
    }
  }

  /** `total` counts every session the filter keeps; the page holds the first fifty
      of them, most recent first, each with its message count and preview. */
  lemma ListingSpec(env: Env, filter: Option<string>, dirs: seq<DirEntry>)
    ensures var sorted := SortDesc(env, CollectSessions(dirs, filter, env.now));
      ListSessions(env, filter, dirs).Success? ==>
        var page := ListSessions(env, filter, dirs).value;
        && page.total == |CollectSessions(dirs, filter, env.now)|
        && |page.sessions| == Min(PageSize, page.total)
        && forall k :: 0 <= k < |page.sessions| ==>
             && page.sessions[k].session == sorted[k]
             && page.sessions[k].messageCount == |sorted[k].messages|
             && BuildPreview(sorted[k].messages) == Success(page.sessions[k].preview)
  {
    var sorted := SortDesc(env, CollectSessions(dirs, filter, env.now));
    AllMetaSpec(sorted);
  }

  /** The page runs from the most recently updated session to the oldest. */
  lemma ListingDescending(env: Env, filter: Option<string>, dirs: seq<DirEntry>, i: nat, j: nat)
    requires ListSessions(env, filter, dirs).Success?
    requires i < j < |ListSessions(env, filter, dirs).value.sessions|
    ensures var page := ListSessions(env, filter, dirs).value;
      Key(env, page.sessions[i].session) >= Key(env, page.sessions[j].session)
  {
    var sorted := SortDesc(env, CollectSessions(dirs, filter, env.now));
    ListingSpec(env, filter, dirs);
    SortSorted(env, CollectSessions(dirs, filter, env.now));
    assert Key(env, sorted[i]) >= Key(env, sorted[j]);
  }

  /** The listing fails, as a whole, exactly when the preview of one of the kept
      sessions throws. */
  lemma ListingFailure(env: Env, filter: Option<string>, dirs: seq<DirEntry>)
    ensures ListSessions(env, filter, dirs).Failure? <==>
      exists s :: s in CollectSessions(dirs, filter, env.now) && BuildPreview(s.messages).Failure?
  {
    var collected := CollectSessions(dirs, filter, env.now);
    var sorted := SortDesc(env, collected);
    AllMetaSpec(sorted);
    SortPermutes(env, collected);
    if ListSessions(env, filter, dirs).Failure? {
      var k :| 0 <= k < |sorted| && BuildPreview(sorted[k].messages).Failure?;
      assert sorted[k] in multiset(sorted);
    }
    if s :| s in collected && BuildPreview(s.messages).Failure? {
      assert s in multiset(collected);
      assert s in sorted;
      var k :| 0 <= k < |sorted| && sorted[k] == s;
    }
  }

  /** Every session the filter keeps is counted once in the total, and the page holds
      only kept sessions. */
  lemma ListingMembers(env: Env, filter: Option<string>, dirs: seq<DirEntry>, k: nat)
    requires ListSessions(env, filter, dirs).Success?
    requires k < |ListSessions(env, filter, dirs).value.sessions|
    ensures ListSessions(env, filter, dirs).value.sessions[k].session in CollectSessions(dirs, filter, env.now)
  {
    var collected := CollectSessions(dirs, filter, env.now);
    var sorted := SortDesc(env, collected);
    ListingSpec(env, filter, dirs);
    SortPermutes(env, collected);
    assert sorted[k] in multiset(collected);
  }
}
