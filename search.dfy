/** The two full-text search endpoints: the per-line field probe, the context window
    around a match, the line scan with its message counter and session date, and the
    per-file and per-directory assembly of results. */
module Search {
  import opened Wrappers
  import opened JsonValue
  import opened Text
  import opened Storage
  import opened Projects

  /** What tells the two endpoints apart: the fields probed, in order, the number of
      highlights returned per session, whether `tool_calls` is searched when no field
      matches, and whether the `project` filter applies. */
  datatype SearchConfig = SearchConfig(fields: seq<string>, cap: nat, toolCalls: bool, filtered: bool)

  /** `/api/search/full`. */
  const FullSearch := SearchConfig(["content", "text", "message", "input", "output", "query", "response"], 5, true, true)

  /** `/api/search`. */
  const BasicSearch := SearchConfig(["content", "text", "message", "input", "output"], 3, false, false)

  /** One match: the counter of the line it was found on, and the text shown. */
  datatype Highlight = Highlight(messageIndex: nat, text: string)

  /** One session with matches. `messageCount` counts all its highlights, also those
      beyond the cap. */
  datatype SearchResult = SearchResult(
    sessionId: string, sessionDate: Json, messageCount: nat, project: string, highlights: seq<Highlight>)

  /** The request has no non-empty `q` parameter (status 400). */
  datatype SearchError = QueryRequired

  /** `Math.max(0, m - 100)`. */
  function WindowStart(m: nat): (r: nat)
    ensures r <= m && m - r <= 100
    ensures r > 0 <==> m > 100
    ensures m > 100 ==> r == m - 100
  {
    if m > 100 then m - 100 else 0
  }

  /** `Math.min(len, m + qlen + 100)`. */
  function WindowEnd(len: nat, m: nat, qlen: nat): (r: nat)
    requires m + qlen <= len
    ensures m + qlen <= r <= len && r - (m + qlen) <= 100
    ensures r < len <==> m + qlen + 100 < len
    ensures m + qlen + 100 < len ==> r == m + qlen + 100
  {
    if m + qlen + 100 < len then m + qlen + 100 else len
  }

  /** The highlight text for a match of length qlen at m in s: up to 100 characters on
      each side, white space collapsed and trimmed, "..." where the text was cut. */
  function Excerpt(s: string, m: nat, qlen: nat): (r: string)
    requires m + qlen <= |s|
    ensures |r| <= qlen + 206
    ensures m > 100 ==> StartsWith(r, "...")
    ensures m + qlen + 100 < |s| ==> EndsWith(r, "...")
    ensures m <= 100 && m + qlen + 100 >= |s| ==> r == CollapseTrim(s)
    ensures r == (if m > 100 then "..." else "") + CollapseTrim(s[WindowStart(m)..WindowEnd(|s|, m, qlen)])
      + (if m + qlen + 100 < |s| then "..." else "")
  {
    var start, end := WindowStart(m), WindowEnd(|s|, m, qlen);
    var window := s[start..end];
    assert start == 0 && end == |s| ==> window == s;
    var pre, body, post := if start > 0 then "..." else "", CollapseTrim(window), if end < |s| then "..." else "";
    AffixesKept(pre, body, post);
    pre + body + post
  }

  lemma AffixesKept(pre: string, body: string, post: string)
    ensures StartsWith(pre + body + post, pre) && EndsWith(pre + body + post, post)
    ensures |pre + body + post| == |pre| + |body| + |post|
    ensures pre == [] && post == [] ==> pre + body + post == body
  {
    var r := pre + body + post;
    assert r[..|pre|] == pre;
    assert r[|r| - |post|..] == post;
  }

  /** A match without white space in it is shown whole in its highlight. */
  lemma ExcerptShowsMatch(s: string, m: nat, qlen: nat)
    requires m + qlen <= |s| && qlen > 0
    requires forall i :: m <= i < m + qlen ==> !IsSpace(s[i])
    ensures Contains(Excerpt(s, m, qlen), s[m..m + qlen])
  {
    var start, end := WindowStart(m), WindowEnd(|s|, m, qlen);
    var x, w, y := s[start..m], s[m..m + qlen], s[m + qlen..end];
    assert s[start..end] == x + w + y;
    CollapseTrimKeeps(x, w, y);
    var pre := if start > 0 then "..." else "";
    var post := if end < |s| then "..." else "";
    ContainsWithin(pre, CollapseTrim(x + w + y), post, w);
  }

  /** A run of text without white space passes through `replace(/\s+/g, ' ').trim()`
      unchanged, surrounded by what becomes of the rest. */
  lemma CollapseTrimKeeps(x: string, w: string, y: string)
    requires w != [] && forall i :: 0 <= i < |w| ==> !IsSpace(w[i])
    ensures Contains(CollapseTrim(x + w + y), w)
  {
    var a, b := ReplaceRuns(x, IsSpace), ReplaceRuns(y, IsSpace);
    RunsAround(x, w, y);
    TrimAround(a, w, b);
    var d := DropWhile(a, IsSpace);
    var r := (d + w) + TrimEnd(b);
    assert CollapseTrim(x + w + y) == r;
    assert r[|d|..|d| + |w|] == w;
    ContainsAt(r, w, |d|);
  }

  /** Collapsing white space around a run without any copies the run. */
  lemma RunsAround(x: string, w: string, y: string)
    requires w != [] && forall i :: 0 <= i < |w| ==> !IsSpace(w[i])
    ensures ReplaceRuns(x + w + y, IsSpace) == ReplaceRuns(x, IsSpace) + (w + ReplaceRuns(y, IsSpace))
  {
    assert x + w + y == x + (w + y);
    ReplaceRunsAppend(x, w + y, IsSpace);
    ReplaceRunsKeep(w, y, IsSpace);
  }

  /** Trimming around a run that starts and ends outside white space keeps it. */
  lemma TrimAround(a: string, w: string, b: string)
    requires w != [] && !IsSpace(w[0]) && !IsSpace(w[|w| - 1])
    ensures Trim(a + (w + b)) == (DropWhile(a, IsSpace) + w) + TrimEnd(b)
  {
    var d := DropWhile(a, IsSpace);
    assert (w + b)[0] == w[0];
    DropWhileAppend(a, w + b, IsSpace);
    AppendAssoc(d, w, b);
    assert (d + w)[|d + w| - 1] == w[|w| - 1];
    TrimEndKeeps(d + w, b);
    assert Trim(a + (w + b)) == TrimEnd((d + w) + b);
  }

  /** The position of the first case-insensitive occurrence of q in a field's value,
      when that value is a non-empty string. */
  function FieldMatch(v: Option<Json>, q: string, lower: char -> char): (r: Option<nat>)
    ensures r.Some? <==> IsTruthyString(v) && Contains(Lower(v.value.s, lower), Lower(q, lower))
    ensures r.Some? ==> r.value + |q| <= |v.value.s| && MatchAt(Lower(v.value.s, lower), Lower(q, lower), r.value)
    ensures r.Some? ==> forall k: nat :: k < r.value ==> !MatchAt(Lower(v.value.s, lower), Lower(q, lower), k)
  {
    if IsTruthyString(v) then IndexOf(Lower(v.value.s, lower), Lower(q, lower)) else None
  }

  /** The highlight a field yields, if it matches. */
  function FieldExcerpt(v: Option<Json>, q: string, lower: char -> char): (r: Option<string>)
    ensures r.Some? <==> FieldMatch(v, q, lower).Some?
    ensures r.Some? ==> |r.value| <= |q| + 206
  {
    match FieldMatch(v, q, lower)
    case None => None
    case Some(m) => Some(Excerpt(v.value.s, m, |q|))
  }

  /** Whether the value of field f of the message matches. */
  predicate FieldHit(message: Json, f: string, q: string, lower: char -> char) {
    FieldMatch(Get(message, f), q, lower).Some?
  }

  /** The index of the first field, from i on, whose value matches. */
  function FirstField(message: Json, fields: seq<string>, q: string, lower: char -> char, i: nat): (r: Option<nat>)
    requires i <= |fields|
    ensures r.Some? ==>
      && i <= r.value < |fields|
      && FieldHit(message, fields[r.value], q, lower)
      && forall j :: i <= j < r.value ==> !FieldHit(message, fields[j], q, lower)
    ensures r.None? ==> forall j :: i <= j < |fields| ==> !FieldHit(message, fields[j], q, lower)
    decreases |fields| - i
  {
    if i == |fields| then None
    else if FieldHit(message, fields[i], q, lower) then Some(i)
    else FirstField(message, fields, q, lower, i + 1)
  }

  /** The highlight of the first field, in list order, that matches. */
  function FieldHighlight(message: Json, fields: seq<string>, q: string, lower: char -> char): (r: Option<string>)
    ensures r.Some? ==> |r.value| <= |q| + 206
  {
    match FirstField(message, fields, q, lower, 0)
    case None => None
    case Some(i) => FieldExcerpt(Get(message, fields[i]), q, lower)
  }

  /** The probe finds a highlight iff some field matches, and it is that of the first
      field that does. */
  lemma FieldHighlightFirst(message: Json, fields: seq<string>, q: string, lower: char -> char, i: nat)
    ensures FieldHighlight(message, fields, q, lower).Some? <==>
      exists j :: 0 <= j < |fields| && FieldMatch(Get(message, fields[j]), q, lower).Some?
    ensures
      (&& i < |fields|
       && FieldMatch(Get(message, fields[i]), q, lower).Some?
       && forall j :: 0 <= j < i ==> FieldMatch(Get(message, fields[j]), q, lower).None?)
      ==> FieldHighlight(message, fields, q, lower) == FieldExcerpt(Get(message, fields[i]), q, lower)
  {
    var first := FirstField(message, fields, q, lower, 0);
    if first.Some? {
      assert FieldHighlight(message, fields, q, lower) == FieldExcerpt(Get(message, fields[first.value]), q, lower);
      if i < |fields| && FieldMatch(Get(message, fields[i]), q, lower).Some? {
        assert first.value <= i;
      }
    }
  }

  /** Fields after one that matches are never looked at. */
  lemma {:induction false} FirstFieldPrefix(message: Json, a: seq<string>, b: seq<string>, q: string, lower: char -> char, i: nat)
    requires i <= |a| && FirstField(message, a, q, lower, i).Some?
    ensures FirstField(message, a + b, q, lower, i) == FirstField(message, a, q, lower, i)
    decreases |a| - i
  {
    assert (a + b)[i] == a[i];
    if FieldMatch(Get(message, a[i]), q, lower).None? {
      FirstFieldPrefix(message, a, b, q, lower, i + 1);
    }
  }

  /** Probing more fields after the ones that already match changes nothing. */
  lemma FieldHighlightPrefix(message: Json, a: seq<string>, b: seq<string>, q: string, lower: char -> char)
    requires FieldHighlight(message, a, q, lower).Some?
    ensures FieldHighlight(message, a + b, q, lower) == FieldHighlight(message, a, q, lower)
  {
    FirstFieldPrefix(message, a, b, q, lower, 0);
    var i := FirstField(message, a, q, lower, 0).value;
    assert (a + b)[i] == a[i];
  }

  /** The `for (const field of searchFields)` loop, which stops at the first match. */
  method ProbeFields(message: Json, fields: seq<string>, q: string, lower: char -> char) returns (highlight: Option<string>)
    ensures highlight == FieldHighlight(message, fields, q, lower)
  {
    highlight := None;
    var i := 0;
    while i < |fields|
      invariant 0 <= i <= |fields|
      invariant FirstField(message, fields, q, lower, 0) == FirstField(message, fields, q, lower, i)
    {
      var v := Get(message, fields[i]);
      if IsTruthyString(v) {
        var text, query := Lower(v.value.s, lower), Lower(q, lower);
        if Contains(text, query) {
          var m := IndexOf(text, query).value;
          highlight := Some(Excerpt(v.value.s, m, |q|));
          ProbeHit(message, fields, q, lower, i);
          return;
        }
      }
      ProbeMiss(message, fields, q, lower, i);
      i := i + 1;
    }
  }

  /** A field that matches, with none before it matching, gives the highlight. */
  lemma ProbeHit(message: Json, fields: seq<string>, q: string, lower: char -> char, i: nat)
    requires i < |fields| && FirstField(message, fields, q, lower, 0) == FirstField(message, fields, q, lower, i)
    requires IsTruthyString(Get(message, fields[i]))
    requires Contains(Lower(Get(message, fields[i]).value.s, lower), Lower(q, lower))
    ensures FieldHighlight(message, fields, q, lower) ==
      Some(Excerpt(Get(message, fields[i]).value.s,
        IndexOf(Lower(Get(message, fields[i]).value.s, lower), Lower(q, lower)).value, |q|))
  {
    assert FieldHit(message, fields[i], q, lower);
  }

  /** A field that does not match passes the search on to the next one. */
  lemma ProbeMiss(message: Json, fields: seq<string>, q: string, lower: char -> char, i: nat)
    requires i < |fields|
    requires IsTruthyString(Get(message, fields[i])) ==>
      !Contains(Lower(Get(message, fields[i]).value.s, lower), Lower(q, lower))
    ensures FirstField(message, fields, q, lower, i) == FirstField(message, fields, q, lower, i + 1)
  {
    assert !FieldHit(message, fields[i], q, lower);
  }

  /** The highlight text of a `tool_calls` match. */
  function ToolCallText(q: string): (r: string)
    ensures |r| == |q| + 25 && r[23..|r| - 2] == q
    ensures StartsWith(r, "[Tool call containing \"") && EndsWith(r, "\"]")
  {
    "[Tool call containing \"" + q + "\"]"
  }

  /** The highlight a parsed line yields: a field match, else, where the endpoint
      searches them, a match in the serialised `tool_calls`. */
  function LineHighlight(cfg: SearchConfig, env: Env, message: Json, q: string): (r: Option<string>)
    ensures FieldHighlight(message, cfg.fields, q, env.lower).Some? ==> r == FieldHighlight(message, cfg.fields, q, env.lower)
    ensures FieldHighlight(message, cfg.fields, q, env.lower).None? ==>
      (r.Some? <==>
        (cfg.toolCalls && TruthyOpt(Get(message, "tool_calls")) &&
         Contains(Lower(env.serialize(Get(message, "tool_calls").value), env.lower), Lower(q, env.lower))))
    ensures FieldHighlight(message, cfg.fields, q, env.lower).None? && r.Some? ==> r.value == ToolCallText(q)
  {
    match FieldHighlight(message, cfg.fields, q, env.lower)
    case Some(t) => Some(t)
    case None =>
      var calls := Get(message, "tool_calls");
      if cfg.toolCalls && TruthyOpt(calls) && Contains(Lower(env.serialize(calls.value), env.lower), Lower(q, env.lower))
      then Some(ToolCallText(q))
      else None
  }

  /** Whatever the basic search finds on a line, the full search finds too. */
  lemma BasicWithinFull(env: Env, message: Json, q: string)
    requires LineHighlight(BasicSearch, env, message, q).Some?
    ensures LineHighlight(FullSearch, env, message, q) == LineHighlight(BasicSearch, env, message, q)
  {
    var basic, extra := BasicSearch.fields, ["query", "response"];
    assert FullSearch.fields == basic + extra;
    FieldHighlightPrefix(message, basic, extra, q, env.lower);
  }

  /** `message.timestamp || message.ts`. */
  function StampOf(message: Json): (r: Option<Json>)
    ensures TruthyOpt(r) <==> TruthyOpt(Get(message, "timestamp")) || TruthyOpt(Get(message, "ts"))
  {
    Or(Get(message, "timestamp"), Get(message, "ts"))
  }

  /** The state of the line loop: the highlights so far, `messageIndex` and
      `sessionDate`. */
  datatype ScanState = ScanState(highlights: seq<Highlight>, index: nat, date: Json)

  /** The highlight rule of an endpoint for a query, as a function of the message. */
  function ProbeOf(cfg: SearchConfig, env: Env, q: string): Json -> Option<string> {
    message => LineHighlight(cfg, env, message, q)
  }

  /** The highlight of one message with index i, if it matches: none or one. */
  function LineHighlights(probe: Json -> Option<string>, message: Json, i: nat): (r: seq<Highlight>)
    ensures |r| <= 1
    ensures r != [] <==> probe(message).Some?
    ensures r != [] ==> r[0] == Highlight(i, probe(message).value)
  {
    match probe(message)
    case Some(t) => [Highlight(i, t)]
    case None => []
  }

  /** One pass of the line loop. A line that does not parse, or parses to `null` (the
      first property read throws and the error is caught), is skipped without
      advancing the counter. */
  function Step(probe: Json -> Option<string>, st: ScanState, line: Line): ScanState
  {
    if !Usable(line) then st
    else
      var message := line.value;
      var stamp := StampOf(message);
      var date := if st.index == 0 && TruthyOpt(stamp) then stamp.value else st.date;
      ScanState(st.highlights + LineHighlights(probe, message, st.index), st.index + 1, date)
  }

  /** The line loop run over lines from st. */
  function ScanFrom(probe: Json -> Option<string>, st: ScanState, lines: seq<Line>): ScanState
  {
    if lines == [] then st
    else Step(probe, ScanFrom(probe, st, lines[..|lines| - 1]), lines[|lines| - 1])
  }

  /** The line loop over a whole file, from no highlights, counter 0 and the current
      time as the session date. */
  function Scan(cfg: SearchConfig, env: Env, q: string, lines: seq<Line>): ScanState
  {
    ScanFrom(ProbeOf(cfg, env, q), ScanState([], 0, JStr(env.now)), lines)
  }

  /** The body of the line loop for a parsed line: the field probe, then the
      `tool_calls` probe where the endpoint has it. */
  method ProbeLine(cfg: SearchConfig, env: Env, message: Json, q: string) returns (found: Option<string>)
    ensures found == LineHighlight(cfg, env, message, q)
  {
    found := ProbeFields(message, cfg.fields, q, env.lower);
    if found.None? && cfg.toolCalls {
      var calls := Get(message, "tool_calls");
      if TruthyOpt(calls) && Contains(Lower(env.serialize(calls.value), env.lower), Lower(q, env.lower)) {
        found := Some(ToolCallText(q));
      }
    }
  }

  /** The line loop. */
  method ScanLines(cfg: SearchConfig, env: Env, q: string, lines: seq<Line>) returns (highlights: seq<Highlight>, sessionDate: Json)
    ensures highlights == Scan(cfg, env, q, lines).highlights
    ensures sessionDate == Scan(cfg, env, q, lines).date
  {
    ghost var probe := ProbeOf(cfg, env, q);
    ghost var init := ScanState([], 0, JStr(env.now));
    highlights := [];
    var messageIndex := 0;
    sessionDate := JStr(env.now);
    var i := 0;
    assert lines[..i] == [];
    while i < |lines|
      invariant 0 <= i <= |lines|
      invariant ScanFrom(probe, init, lines[..i]) == ScanState(highlights, messageIndex, sessionDate)
    {
      ScanFromSnoc(probe, init, lines, i);
      ghost var prev := ScanState(highlights, messageIndex, sessionDate);
      var line := lines[i];
      if Usable(line) {
        var message := line.value;
        var stamp := StampOf(message);
        if messageIndex == 0 && TruthyOpt(stamp) {
          sessionDate := stamp.value;
        }
        var found := ProbeLine(cfg, env, message, q);
        assert probe(message) == found;
        if found.Some? {
          highlights := highlights + [Highlight(messageIndex, found.value)];
        }
        messageIndex := messageIndex + 1;
      }
      assert ScanState(highlights, messageIndex, sessionDate) == Step(probe, prev, line);
      assert ScanFrom(probe, init, lines[..i + 1]) == ScanState(highlights, messageIndex, sessionDate);
      i := i + 1;
    }
    assert lines[..i] == lines;
  }

  lemma ScanFromSnoc(probe: Json -> Option<string>, st: ScanState, lines: seq<Line>, i: nat)
    requires i < |lines|
    ensures ScanFrom(probe, st, lines[..i + 1]) == Step(probe, ScanFrom(probe, st, lines[..i]), lines[i])
  {
    assert lines[..i + 1][..i] == lines[..i];
  }

  /** The lines the scan counts, as parsed values, in order. */
  function Messages(lines: seq<Line>): (r: seq<Json>)
    ensures |r| <= |lines|
  {
    if lines == [] then []
    else (if Usable(lines[0]) then [lines[0].value] else []) + Messages(lines[1..])
  }

  /** The highlights of messages numbered from base, each message on its own. */
  function Highlights(probe: Json -> Option<string>, msgs: seq<Json>, base: nat): (r: seq<Highlight>)
    ensures |r| <= |msgs|
  {
    if msgs == [] then []
    else LineHighlights(probe, msgs[0], base) + Highlights(probe, msgs[1..], base + 1)
  }

  /** The session date: the first counted line's `timestamp || ts`, else now. */
  function SessionDate(msgs: seq<Json>, now: string): Json
  {
    if msgs != [] && TruthyOpt(StampOf(msgs[0])) then StampOf(msgs[0]).value else JStr(now)
  }

  lemma {:induction false} MessagesAppend(lines: seq<Line>, x: Line)
    ensures Messages(lines + [x]) == Messages(lines) + (if Usable(x) then [x.value] else [])
  {
    if lines == [] {
      assert lines + [x] == [x];
    } else {
      var h := if Usable(lines[0]) then [lines[0].value] else [];
      assert (lines + [x])[0] == lines[0] && (lines + [x])[1..] == lines[1..] + [x];
      assert Messages(lines + [x]) == h + Messages(lines[1..] + [x]);
      MessagesAppend(lines[1..], x);
      AppendAssoc(h, Messages(lines[1..]), if Usable(x) then [x.value] else []);
    }
  }

  lemma {:induction false} HighlightsAppend(probe: Json -> Option<string>, msgs: seq<Json>, m: Json, base: nat)
    ensures Highlights(probe, msgs + [m], base) == Highlights(probe, msgs, base) + LineHighlights(probe, m, base + |msgs|)
  {
    if msgs == [] {
      assert msgs + [m] == [m];
      HighlightsOne(probe, m, base);
    } else {
      var t := msgs[1..];
      assert (msgs + [m])[0] == msgs[0] && (msgs + [m])[1..] == t + [m];
      HighlightsCons(probe, msgs, base);
      HighlightsCons(probe, msgs + [m], base);
      HighlightsAppend(probe, t, m, base + 1);
      AppendAssoc(LineHighlights(probe, msgs[0], base), Highlights(probe, t, base + 1), LineHighlights(probe, m, base + 1 + |t|));
    }
  }

  lemma HighlightsOne(probe: Json -> Option<string>, m: Json, base: nat)
    ensures Highlights(probe, [m], base) == LineHighlights(probe, m, base)
  {
    assert [m][1..] == [];
    assert LineHighlights(probe, m, base) + [] == LineHighlights(probe, m, base);
  }

  lemma HighlightsCons(probe: Json -> Option<string>, msgs: seq<Json>, base: nat)
    requires msgs != []
    ensures Highlights(probe, msgs, base) == LineHighlights(probe, msgs[0], base) + Highlights(probe, msgs[1..], base + 1)
  {
  }

  /** The line loop records, for the counted lines in order, the highlight of each
      one that matches, numbered by its position among the counted lines; it counts
      them all, and takes the date from the first. */
  lemma {:induction false} ScanFromSpec(probe: Json -> Option<string>, now: string, lines: seq<Line>)
    ensures var msgs := Messages(lines);
      ScanFrom(probe, ScanState([], 0, JStr(now)), lines) == ScanState(Highlights(probe, msgs, 0), |msgs|, SessionDate(msgs, now))
  {
    if lines != [] {
      var init, x := lines[..|lines| - 1], lines[|lines| - 1];
      assert lines == init + [x];
      ScanFromSpec(probe, now, init);
      MessagesAppend(init, x);
      var st := ScanFrom(probe, ScanState([], 0, JStr(now)), init);
      assert ScanFrom(probe, ScanState([], 0, JStr(now)), lines) == Step(probe, st, x);
      var msgs := Messages(init);
      assert st == ScanState(Highlights(probe, msgs, 0), |msgs|, SessionDate(msgs, now));
      if Usable(x) {
        StepSpec(probe, now, msgs, x.value);
        assert x == Some(x.value);
        assert Messages(lines) == msgs + [x.value];
      } else {
        assert Messages(lines) == msgs;
      }
    }
  }

  /** The scan of a file, in terms of its counted lines. */
  lemma ScanSpec(cfg: SearchConfig, env: Env, q: string, lines: seq<Line>)
    ensures var msgs := Messages(lines);
      Scan(cfg, env, q, lines) == ScanState(Highlights(ProbeOf(cfg, env, q), msgs, 0), |msgs|, SessionDate(msgs, env.now))
  {
    ScanFromSpec(ProbeOf(cfg, env, q), env.now, lines);
  }

  /** One counted line extends the highlights, the count and the date as the
      reference functions say. */
  lemma StepSpec(probe: Json -> Option<string>, now: string, msgs: seq<Json>, m: Json)
    requires m != JNull
    ensures
      var st := ScanState(Highlights(probe, msgs, 0), |msgs|, SessionDate(msgs, now));
      var ms := msgs + [m];
      Step(probe, st, Some(m)) == ScanState(Highlights(probe, ms, 0), |ms|, SessionDate(ms, now))
  {
    HighlightsAppend(probe, msgs, m, 0);
    if msgs != [] {
      assert (msgs + [m])[0] == msgs[0];
    } else {
      assert msgs + [m] == [m];
    }
  }

  /** Every highlight belongs to a message that matches, and its index is below base
      plus the number of messages. */
  lemma {:induction false} HighlightsSound(probe: Json -> Option<string>, msgs: seq<Json>, base: nat, i: nat)
    requires i < |Highlights(probe, msgs, base)|
    ensures var h := Highlights(probe, msgs, base)[i];
      base <= h.messageIndex < base + |msgs| && probe(msgs[h.messageIndex - base]) == Some(h.text)
  {
    var own := LineHighlights(probe, msgs[0], base);
    var rest := Highlights(probe, msgs[1..], base + 1);
    assert Highlights(probe, msgs, base) == own + rest;
    if i >= |own| {
      HighlightsSound(probe, msgs[1..], base + 1, i - |own|);
      var h := rest[i - |own|];
      assert msgs[1..][h.messageIndex - (base + 1)] == msgs[h.messageIndex - base];
    }
  }

  /** The recorded indices increase strictly. */
  lemma {:induction false} HighlightsIncreasing(probe: Json -> Option<string>, msgs: seq<Json>, base: nat, i: nat, j: nat)
    requires i < j < |Highlights(probe, msgs, base)|
    ensures Highlights(probe, msgs, base)[i].messageIndex < Highlights(probe, msgs, base)[j].messageIndex
  {
    var own := LineHighlights(probe, msgs[0], base);
    var rest := Highlights(probe, msgs[1..], base + 1);
    assert Highlights(probe, msgs, base) == own + rest;
    if i >= |own| {
      HighlightsIncreasing(probe, msgs[1..], base + 1, i - |own|, j - |own|);
    } else {
      HighlightsSound(probe, msgs[1..], base + 1, j - |own|);
    }
  }

  /** Every message that matches has its highlight. */
  lemma {:induction false} HighlightsComplete(probe: Json -> Option<string>, msgs: seq<Json>, base: nat, k: nat)
    requires k < |msgs| && probe(msgs[k]).Some?
    ensures Highlight(base + k, probe(msgs[k]).value) in Highlights(probe, msgs, base)
  {
    if k > 0 {
      assert msgs[1..][k - 1] == msgs[k];
      HighlightsComplete(probe, msgs[1..], base + 1, k - 1);
    }
  }

  /** A session the basic search reports is also reported by the full search. */
  lemma {:induction false} BasicHighlightsWithinFull(env: Env, q: string, msgs: seq<Json>, base: nat)
    requires Highlights(ProbeOf(BasicSearch, env, q), msgs, base) != []
    ensures Highlights(ProbeOf(FullSearch, env, q), msgs, base) != []
  {
    if LineHighlight(BasicSearch, env, msgs[0], q).Some? {
      BasicWithinFull(env, msgs[0], q);
    } else {
      BasicHighlightsWithinFull(env, q, msgs[1..], base + 1);
    }
  }

  function Min(a: nat, b: nat): nat {
    if a <= b then a else b
  }

  /** The result for one entry of a project directory: present iff the entry is a
      readable ".jsonl" file with at least one highlight. */
  function SearchFile(cfg: SearchConfig, env: Env, q: string, dir: string, file: FileEntry): (r: Option<SearchResult>)
    ensures r.Some? <==>
      IsSessionFile(file.name) && file.lines.Some? && Scan(cfg, env, q, file.lines.value).highlights != []
    ensures r.Some? ==>
      var all := Scan(cfg, env, q, file.lines.value).highlights;
      && r.value.messageCount == |all| >= |r.value.highlights|
      && |r.value.highlights| == Min(cfg.cap, |all|)
      && r.value.highlights == all[..|r.value.highlights|]
      && r.value.sessionId == SessionId(file.name)
      && r.value.project == ProjectPath(dir)
      && r.value.sessionDate == Scan(cfg, env, q, file.lines.value).date
  {
    if !IsSessionFile(file.name) || file.lines.None? then None
    else
      var st := Scan(cfg, env, q, file.lines.value);
      if st.highlights == [] then None
      else
        var shown := st.highlights[..Min(cfg.cap, |st.highlights|)];
        Some(SearchResult(SessionId(file.name), st.date, |st.highlights|, ProjectPath(dir), shown))
  }

  /** The results of the entries of one directory, in order. */
  function SearchFiles(cfg: SearchConfig, env: Env, q: string, dir: string, files: seq<FileEntry>): (r: seq<SearchResult>)
    ensures |r| <= |files|
  {
    if files == [] then []
    else
      (match SearchFile(cfg, env, q, dir, files[0]) case Some(x) => [x] case None => []) +
      SearchFiles(cfg, env, q, dir, files[1..])
  }

  /** A directory the endpoint looks into: it is a directory and, for the full
      search, passes the project filter. Hidden directories are searched too. */
  predicate Searched(cfg: SearchConfig, filter: Option<string>, d: DirEntry) {
    d.isDir && (cfg.filtered ==> KeepDir(filter, d.name))
  }

  /** The results of all project directories, in order. */
  function SearchDirs(cfg: SearchConfig, env: Env, q: string, filter: Option<string>, dirs: seq<DirEntry>): seq<SearchResult>
  {
    if dirs == [] then []
    else
      (if Searched(cfg, filter, dirs[0]) then SearchFiles(cfg, env, q, dirs[0].name, dirs[0].files) else []) +
      SearchDirs(cfg, env, q, filter, dirs[1..])
  }

  /** The endpoint: a missing or empty query is refused; otherwise every result of
      every searched directory. */
  function SearchEndpoint(cfg: SearchConfig, env: Env, q: Option<string>, filter: Option<string>, dirs: seq<DirEntry>): (r: Result<seq<SearchResult>, SearchError>)
    ensures r.Failure? <==> q.None? || q.value == ""
    ensures r.Success? ==> r.value == SearchDirs(cfg, env, q.value, filter, dirs)
  {
    if q.None? || q.value == "" then Failure(QueryRequired)
    else Success(SearchDirs(cfg, env, q.value, filter, dirs))
  }

  /** The results of a directory are exactly those of its entries. */
  lemma {:induction false} SearchFilesSpec(cfg: SearchConfig, env: Env, q: string, dir: string, files: seq<FileEntry>)
    ensures forall x :: x in SearchFiles(cfg, env, q, dir, files) <==>
      exists f :: f in files && SearchFile(cfg, env, q, dir, f) == Some(x)
  {
    if files != [] {
      SearchFilesSpec(cfg, env, q, dir, files[1..]);
      forall x ensures x in SearchFiles(cfg, env, q, dir, files) <==>
        exists f :: f in files && SearchFile(cfg, env, q, dir, f) == Some(x)
      {
        if f :| f in files && SearchFile(cfg, env, q, dir, f) == Some(x) {
          if f != files[0] {
            assert f in files[1..];
          }
        }
        if x in SearchFiles(cfg, env, q, dir, files[1..]) {
          var f :| f in files[1..] && SearchFile(cfg, env, q, dir, f) == Some(x);
          assert f in files;
        }
      }
    }
  }

  /** Unfolding one step of SearchFiles on a concatenation. */
  lemma SearchFilesStep(cfg: SearchConfig, env: Env, q: string, dir: string, a: seq<FileEntry>, b: seq<FileEntry>)
    requires a != []
    ensures SearchFiles(cfg, env, q, dir, a + b) == (match SearchFile(cfg, env, q, dir, a[0]) case Some(x) => [x] case None => []) + SearchFiles(cfg, env, q, dir, a[1..] + b)
  {
    assert (a + b)[0] == a[0] && (a + b)[1..] == a[1..] + b;
  }

  /** The results of a concatenation of entries are the results of each part, in entry
      order. */
  lemma {:induction false} SearchFilesAppend(cfg: SearchConfig, env: Env, q: string, dir: string, a: seq<FileEntry>, b: seq<FileEntry>)
    ensures SearchFiles(cfg, env, q, dir, a + b) == SearchFiles(cfg, env, q, dir, a) + SearchFiles(cfg, env, q, dir, b)
  {
    if a == [] {
      assert a + b == b;
    } else {
      var h: seq<SearchResult> := match SearchFile(cfg, env, q, dir, a[0]) case Some(x) => [x] case None => [];
      SearchFilesStep(cfg, env, q, dir, a, b);
      SearchFilesAppend(cfg, env, q, dir, a[1..], b);
      AppendAssoc(h, SearchFiles(cfg, env, q, dir, a[1..]), SearchFiles(cfg, env, q, dir, b));
    }
  }

  /** One entry gives its result, if it has one, and nothing else. */
  lemma SearchFilesOne(cfg: SearchConfig, env: Env, q: string, dir: string, f: FileEntry)
    ensures SearchFiles(cfg, env, q, dir, [f]) == match SearchFile(cfg, env, q, dir, f) case Some(x) => [x] case None => []
  {
    assert [f][1..] == [];
  }

  /** The results are exactly those of the entries of the searched directories. */
  lemma {:induction false} SearchDirsSpec(cfg: SearchConfig, env: Env, q: string, filter: Option<string>, dirs: seq<DirEntry>)
    ensures forall x :: x in SearchDirs(cfg, env, q, filter, dirs) <==>
      exists d, f :: d in dirs && Searched(cfg, filter, d) && f in d.files && SearchFile(cfg, env, q, d.name, f) == Some(x)
  {
    if dirs != [] {
      var d0 := dirs[0];
      SearchDirsSpec(cfg, env, q, filter, dirs[1..]);
      SearchFilesSpec(cfg, env, q, d0.name, d0.files);
      forall x ensures x in SearchDirs(cfg, env, q, filter, dirs) <==>
        exists d, f :: d in dirs && Searched(cfg, filter, d) && f in d.files && SearchFile(cfg, env, q, d.name, f) == Some(x)
      {
        if d, f :| d in dirs && Searched(cfg, filter, d) && f in d.files && SearchFile(cfg, env, q, d.name, f) == Some(x) {
          if d != d0 {
            assert d in dirs[1..];
          }
        }
        if x in SearchDirs(cfg, env, q, filter, dirs[1..]) {
          var d, f :| d in dirs[1..] && Searched(cfg, filter, d) && f in d.files && SearchFile(cfg, env, q, d.name, f) == Some(x);
          assert d in dirs;
        }
        if Searched(cfg, filter, d0) && x in SearchFiles(cfg, env, q, d0.name, d0.files) {
          var f :| f in d0.files && SearchFile(cfg, env, q, d0.name, f) == Some(x);
          assert d0 in dirs;
        }
      }
    }
  }

  /** Unfolding one step of SearchDirs on a concatenation. */
  lemma SearchDirsStep(cfg: SearchConfig, env: Env, q: string, filter: Option<string>, a: seq<DirEntry>, b: seq<DirEntry>)
    requires a != []
    ensures SearchDirs(cfg, env, q, filter, a + b) == (if Searched(cfg, filter, a[0]) then SearchFiles(cfg, env, q, a[0].name, a[0].files) else []) + SearchDirs(cfg, env, q, filter, a[1..] + b)
  {
    assert (a + b)[0] == a[0] && (a + b)[1..] == a[1..] + b;
  }

  /** The results of a concatenation of directories are those of each part, in directory
      order. */
  lemma {:induction false} SearchDirsAppend(cfg: SearchConfig, env: Env, q: string, filter: Option<string>, a: seq<DirEntry>, b: seq<DirEntry>)
    ensures SearchDirs(cfg, env, q, filter, a + b) == SearchDirs(cfg, env, q, filter, a) + SearchDirs(cfg, env, q, filter, b)
  {
    if a == [] {
      assert a + b == b;
    } else {
      var h: seq<SearchResult> := if Searched(cfg, filter, a[0]) then SearchFiles(cfg, env, q, a[0].name, a[0].files) else [];
      SearchDirsStep(cfg, env, q, filter, a, b);
      SearchDirsAppend(cfg, env, q, filter, a[1..], b);
      AppendAssoc(h, SearchDirs(cfg, env, q, filter, a[1..]), SearchDirs(cfg, env, q, filter, b));
    }
  }

  /** A searched directory gives the results of its entries, in their order; any other
      gives none. */
  lemma SearchDirsOne(cfg: SearchConfig, env: Env, q: string, filter: Option<string>, d: DirEntry)
    ensures SearchDirs(cfg, env, q, filter, [d]) == if Searched(cfg, filter, d) then SearchFiles(cfg, env, q, d.name, d.files) else []
  {
    assert [d][1..] == [];
  }

  /** A file yields a result iff one of its counted lines matches, and its highlights
      are then the first matches, at most five or three. */
  lemma FileResult(cfg: SearchConfig, env: Env, q: string, dir: string, file: FileEntry)
    requires IsSessionFile(file.name) && file.lines.Some?
    ensures var msgs := Messages(file.lines.value);
      SearchFile(cfg, env, q, dir, file).Some? <==>
        exists k :: 0 <= k < |msgs| && LineHighlight(cfg, env, msgs[k], q).Some?
  {
    var msgs := Messages(file.lines.value);
    var probe := ProbeOf(cfg, env, q);
    ScanSpec(cfg, env, q, file.lines.value);
    if exists k :: 0 <= k < |msgs| && LineHighlight(cfg, env, msgs[k], q).Some? {
      var k :| 0 <= k < |msgs| && LineHighlight(cfg, env, msgs[k], q).Some?;
      assert probe(msgs[k]) == LineHighlight(cfg, env, msgs[k], q);
      HighlightsComplete(probe, msgs, 0, k);
    }
    if SearchFile(cfg, env, q, dir, file).Some? {
      HighlightsSound(probe, msgs, 0, 0);
    }
  }

  /** Every session the basic search reports, the full search reports too, when no
      project filter is given. */
  lemma BasicFileWithinFull(env: Env, q: string, dir: string, file: FileEntry)
    requires SearchFile(BasicSearch, env, q, dir, file).Some?
    ensures SearchFile(FullSearch, env, q, dir, file).Some?
  {
    var lines := file.lines.value;
    ScanSpec(BasicSearch, env, q, lines);
    ScanSpec(FullSearch, env, q, lines);
    BasicHighlightsWithinFull(env, q, Messages(lines), 0);
  }
}
