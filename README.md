# ccsearch core, modelled in Dafny

ccsearch is a local web tool for browsing and searching transcripts of chat sessions. Each
session is stored as a JSON Lines file (`<id>.jsonl`) inside a project directory under a
`projects` root. The project directory's name encodes the project path, with `-` standing
for `/`. This project models the request-independent logic of its server, and of the
helper that pulls displayable text out of one transcript record:

- `extractMessageContent`: a field-priority extraction over a parsed JSON value
  (module `MessageContent`; the unit tests as lemmas in `MessageContentExamples`);
- the two full-text search endpoints, `/api/search` and `/api/search/full`, as one
  model parameterised by the fields probed and the highlight cap. This covers the per-line
  probe, the ±100-character context window, the `tool_calls` fall-back, the line loop with
  its `messageIndex` counter and session date, and the per-file results (module `Search`);
- the session detail view `/api/session/:id` and the collection of sessions for the
  listing (module `Sessions`);
- the listing `/api/sessions`: the stable sort by `updated_at`, the preview line of
  each session, and the page of fifty with its total (modules `Sorting`, `Preview` and
  `Listing`);
- project helpers: display name and path, the hidden-entry rule, the project filters,
  the `lastUpdated` fold, and both project lists (module `Projects`);
- as an add-on outside the server, the title of a session card (module
  `SessionTitle`). Its component source is not part of this model. The card's tests
  (`src/client/components/SessionItem.test.tsx`) decide two cases: a session opened by
  a user message is titled with that message's text, and a session without messages is
  "Untitled Session". The rest of the rule is this model's own choice: the title is the
  text of the first user message that has any, and "Untitled Session" when none has.

Shared pieces:

- `JsonValue` holds parsed JSON with JavaScript truthiness, property reads and the
  string conversion of `Array.prototype.join`.
- `Text` holds the string library functions the code calls (`trim`, the `/\s+/g`
  and `/\n+/g` replacements, `indexOf`, `includes`, `substring`, `replace`, and string `<`).
- `Storage` is the snapshot of the file system a request reads.
- `Wrappers` holds `Option` and `Result`.

The file system is input data. A directory entry is a name, an `isDir` flag and its
entries. A file entry is a name, an optional modification time and an optional sequence
of non-blank lines, each already through `JSON.parse` (`None` when it does not parse).
Every soft failure the code catches (`readdir`, `stat` or `readFile` failing) shows up as
an empty or absent part of that data. What the host supplies is a parameter record
`Env`:

- one reading of the clock (`now`);
- the per-character case mapping of `toLowerCase`;
- `JSON.stringify` of a value;
- `new Date(v).getTime()` as an integer key.

Where the code iterates step by step, the model is a method with a loop proved equal to a
specification function. That covers the search line loop and its field loop, the preview
budget loop, the `lastUpdated` loop, the in-place array sort and the listing's `map`. The
expression-shaped code is modelled as functions: the extraction, the detail view, the
filters and names, and the window arithmetic.

Behaviour of the code worth knowing, which the model follows:

- `extractMessageContent` can throw. Joining the texts of a nested array converts each
  text with `String`, and that conversion throws a `TypeError` for an object carrying its
  own `toString` member (see Findings).
- A session id is `file.replace('.jsonl', '')`. This removes the first occurrence of
  `.jsonl`, not necessarily the suffix (`Storage.SessionId`).
- The preview adds a fragment only when more than 20 characters of budget remain
  (`remainingSpace > 20`), not 20 or more.
- The preview's content rule is its own. A truthy non-string `summary`, or a truthy
  `message.content` that is neither a string nor an array, makes `.replace` or `.map`
  throw. A `null` array item makes `c.text` throw. Any of these fails the whole listing
  request (`Listing.ListingFailure`). So can the sort, which this model does not
  capture (see "## Left out").
- The search endpoints and the listing read every directory entry, the hidden ones
  included. Only the two project lists skip names starting with `.`.
- The listing's filter tests the project path (`/` form) against the filter as given.
  The full search and the export convert the filter's `/` to `-` and test the directory
  name. The two agree unless the filter holds a `-` (`Projects.FiltersAgree`,
  `Projects.FiltersDisagreeOnDash`).
- A search line that parses to `null` throws at its first property read and is skipped
  like an unparseable line, without advancing `messageIndex`. In the listing, a first or
  last line that is `null` makes the whole file skipped.

## Model

| member | source | states |
|---|---|---|
| JsonValue.Get | src/utils/extractMessageContent.ts:5-10 | a property read yields a value exactly for an own key of an object, and then that key's value; anything else reads as undefined |
| JsonValue.Or | src/server-proxy.ts:150 | the JavaScript `or` of two reads is truthy iff one side is, and is the left side whenever that is truthy |
| JsonValue.Stamp | src/server-proxy.ts:431-432 | `timestamp` when truthy, else `ts` when truthy, else the current time |
| JsonValue.Join | src/utils/extractMessageContent.ts:18 | joining no parts gives "" and joining one part gives that part |
| JsonValue.JoinElement | src/server-proxy.ts:500 | a string element converts to itself; an object fails to convert exactly when it has its own `toString` member |
| JsonValue.JoinValues | src/server-proxy.ts:500 | `join` fails iff some element fails to convert; on all-string elements it is the plain join of their texts |
| JsonValue.Strings | src/utils/extractMessageContent.ts:17 | the texts of string values, one per value, in order |
| Text.DropWhile | src/server-proxy.ts:176 | the result is a suffix; every dropped character is in the class and the first kept one is not |
| Text.ReplaceRuns | src/server-proxy.ts:503 | no longer than the input, and it starts with a space exactly when the input starts inside a run |
| Text.ReplaceRunsShape | src/server-proxy.ts:503 | after the replacement every character of the class is a space and no two of them are adjacent |
| Text.TrimEnd | src/server-proxy.ts:176 | the result is a prefix, everything cut is white space, and what is kept does not end in white space |
| Text.Trim | src/server-proxy.ts:176 | `trim()` never lengthens a string and leaves no white space at either end |
| Text.CollapseTrim | src/server-proxy.ts:176 | the collapsed text is no longer than the input and neither starts nor ends with white space |
| Text.CollapseTrimShape | src/server-proxy.ts:176 | in the collapsed text the only white space is single spaces, never two in a row |
| Text.TrimShape | src/server-proxy.ts:174-176 | trimming a collapsed text leaves it collapsed: single spaces only, never two in a row |
| Text.DropSpacesAfterNewlines | src/server-proxy.ts:503 | dropping newlines and then white space drops exactly the leading white space |
| Text.DropSpacesOfNewlineRuns | src/server-proxy.ts:503 | dropping leading white space commutes with turning newline runs into spaces |
| Text.NewlinePassRedundant | src/server-proxy.ts:503 | turning newline runs into spaces before collapsing white space changes nothing |
| Text.DropWhileAppend | src/server-proxy.ts:176 | what is dropped from a + b is dropped from a alone when b starts outside the class |
| Text.ReplaceRunsAppend | src/server-proxy.ts:176 | replacing runs distributes over a cut before a character outside the class |
| Text.ReplaceRunsKeep | src/server-proxy.ts:176 | characters outside the class are copied verbatim |
| Text.TrimEndKeeps | src/server-proxy.ts:176 | trailing white space is only cut after the last other character |
| Text.IndexOf | src/server-proxy.ts:171 | `indexOf` gives the first position where the needle occurs, and none only when it occurs nowhere |
| Text.IndexFrom | src/server-proxy.ts:171 | searching from a position with no earlier occurrence finds the first occurrence |
| Text.ContainsAt | src/server-proxy.ts:169 | an occurrence at a position makes `includes` true |
| Text.ContainsWithin | src/server-proxy.ts:178-179 | an occurrence survives adding text on either side |
| Text.ReplaceChar | src/server-proxy.ts:212 | `replace(/c/g, d)` keeps the length and changes exactly the c characters |
| Text.ReplaceFirst | src/server-proxy.ts:209 | a string pattern replaces only its first occurrence, or nothing when absent |
| Text.Take | src/server-proxy.ts:430 | `substring(0, n)` is the prefix of length min(n, length) |
| Text.Lower | src/server-proxy.ts:169 | `toLowerCase` keeps the length and maps each character |
| Text.LowerKeepsMatch | src/server-proxy.ts:169 | an occurrence survives lower-casing both strings |
| Text.LessIrreflexive | src/server-proxy.ts:76 | no ISO time string is later than itself |
| Text.LessTransitive | src/server-proxy.ts:76 | string order on times is transitive |
| Text.LessTotal | src/server-proxy.ts:76 | two different time strings are always ordered one way or the other |
| MessageContent.SourceOf | src/utils/extractMessageContent.ts:2-23 | a falsy record has no text source; a direct source is never empty |
| MessageContent.ExtractMessageContent | src/utils/extractMessageContent.ts:1-24 | a falsy record yields ""; the function can only fail on the nested-array branch |
| MessageContent.TextValues | src/utils/extractMessageContent.ts:16-17 | filtering and mapping never yields more texts than items |
| MessageContent.StringTexts | src/utils/extractMessageContent.ts:16-17 | the string texts that qualify are never empty and never more than the items |
| MessageContent.ExtractText | src/utils/extractMessageContent.ts:1-24 | the corrected extraction gives "" for every falsy record |
| MessageContent.ContentWins | src/utils/extractMessageContent.ts:5 | a non-empty string `content` is the result, whatever else the record holds |
| MessageContent.TextWinsOverSummary | src/utils/extractMessageContent.ts:6 | without a qualifying `content`, a non-empty string `text` wins over `summary` and the nested message |
| MessageContent.SummaryWinsOverNested | src/utils/extractMessageContent.ts:7 | without qualifying `content` or `text`, a non-empty string `summary` wins over the nested message |
| MessageContent.NonStringFieldSkipped | src/utils/extractMessageContent.ts:5-7 | a `content`, `text` or `summary` that is not a non-empty string extracts exactly as if absent |
| MessageContent.NestedStringVerbatim | src/utils/extractMessageContent.ts:10-13 | with no top-level field qualifying, a string `message.content` is returned verbatim |
| MessageContent.TextValuesAppend | src/utils/extractMessageContent.ts:16-17 | the filtered texts of a + b are those of a followed by those of b |
| MessageContent.TextValuesAround | src/utils/extractMessageContent.ts:16-17 | an item contributes its text, at its place, exactly when it is a text item with truthy text |
| MessageContent.NestedArraySource | src/utils/extractMessageContent.ts:14 | a record holding only a nested array takes its text from that array |
| MessageContent.NonTextItemIgnored | src/utils/extractMessageContent.ts:16 | inserting an item that is not a text item, or lacks text, anywhere in the array changes nothing |
| MessageContent.NoTextItemsNoValues | src/utils/extractMessageContent.ts:16 | without text items the filter keeps nothing |
| MessageContent.NoTextItemsEmpty | src/utils/extractMessageContent.ts:14-23 | an empty array, or one with no qualifying item, yields "" |
| MessageContent.StringTextsAgree | src/utils/extractMessageContent.ts:15-18 | when every qualifying text is a string, the as-written texts are exactly the corrected ones |
| MessageContent.ExtractTextAgrees | src/utils/extractMessageContent.ts:15-18 | when every qualifying text is a string, the code does not throw and agrees with the corrected extraction |
| MessageContent.ExtractFailsOnlyOnConversion | src/utils/extractMessageContent.ts:15-18 | the code throws only when some qualifying text of a nested array fails to convert to a string |
| MessageContent.UnconvertibleTextThrows | src/utils/extractMessageContent.ts:15-18 | a text item whose text is an object with its own `toString` makes the code throw; the corrected extraction skips it |
| MessageContentExamples.EdgeCases | src/utils/extractMessageContent.test.ts:5-15 | null, undefined and `{}` yield "" |
| MessageContentExamples.DirectContent | src/utils/extractMessageContent.test.ts:18-28 | a string `content` is returned and wins over `text` and `summary` |
| MessageContentExamples.TextAndSummary | src/utils/extractMessageContent.test.ts:31-45 | `text` is used without `content` and wins over `summary`; `summary` is the last direct field |
| MessageContentExamples.NestedString | src/utils/extractMessageContent.test.ts:48-52 | a nested string `message.content` is returned |
| MessageContentExamples.TwoTextItems | src/utils/extractMessageContent.test.ts:55-64 | two text items with non-empty texts are joined with one space |
| MessageContentExamples.TextItemsAround | src/utils/extractMessageContent.test.ts:66-76 | a non-text item between two text items contributes nothing |
| MessageContentExamples.TextItemThenOthers | src/utils/extractMessageContent.test.ts:78-88 | two non-contributing items after a text item leave its text alone |
| MessageContentExamples.ArrayTextJoined | src/utils/extractMessageContent.test.ts:55-64 | "First part" and "Second part" give "First part Second part" |
| MessageContentExamples.ArrayNonTextDropped | src/utils/extractMessageContent.test.ts:66-76 | a `tool_use` item between two text items is dropped |
| MessageContentExamples.ArrayMissingTextDropped | src/utils/extractMessageContent.test.ts:78-88 | a text item without text and an item of another type are dropped |
| MessageContentExamples.NoKnownField | src/utils/extractMessageContent.test.ts:101-112 | a record with none of `content`, `text`, `summary` and `message` yields "" |
| MessageContentExamples.TypeSafety | src/utils/extractMessageContent.test.ts:91-98 | a numeric or object `content` and an array `text` are ignored, not coerced |
| MessageContentExamples.Fallback | src/utils/extractMessageContent.test.ts:101-112 | records of an unknown shape yield "" |
| MessageContentExamples.ChatFlatMessage | src/utils/extractMessageContent.test.ts:115-120 | a flat assistant message gives its content |
| MessageContentExamples.NestedWithRole | src/utils/extractMessageContent.ts:10-14 | a `role` beside the nested `content` does not change the extracted text |
| MessageContentExamples.ChatToolUse | src/utils/extractMessageContent.test.ts:122-133 | on the test's record, with its nested `role` and the tool block's `name` and `input`, the tool block is dropped from the joined text |
| MessageContentExamples.ChatMultimodal | src/utils/extractMessageContent.test.ts:135-145 | on the test's record, with the image block's `source`, the image block is dropped from the joined text |
| MessageContentExamples.EmptyContent | src/utils/extractMessageContent.test.ts:148-163 | an empty array, or one without text items, yields "" |
| Storage.SessionId | src/server-proxy.ts:209 | removing ".jsonl" shortens a name that contains it by six, and leaves any other name alone |
| Storage.SessionIdOfPlainName | src/server-proxy.ts:428 | a name whose only ".jsonl" is its suffix loses exactly that suffix |
| Projects.ProjectPath | src/server-proxy.ts:83 | the path has the name's length, no `-`, and `/` exactly where the name has `-` |
| Projects.PathRoundTrip | src/server-proxy.ts:83 | turning the path's `/` back into `-` gives the directory name again |
| Projects.LastSegment | src/server-proxy.ts:82 | `split('-').pop()` is the suffix after the last `-`, or the whole name without one |
| Projects.DisplayName | src/server-proxy.ts:82 | the display name is the last dash segment; it is the whole name when that has no `-` or ends with `-` |
| Projects.ProjectNames | src/server-proxy.ts:547 | the project list holds the path of every entry not starting with `.`, and nothing else |
| Projects.ProjectNamesAppend | src/server-proxy.ts:547 | the list is built entry by entry in directory order: the list of a concatenation is the concatenation of the lists |
| Projects.ProjectNamesOne | src/server-proxy.ts:547 | one entry contributes exactly its path, or nothing when it is hidden |
| Projects.FiltersAgree | src/server-proxy.ts:118-124 | for a filter without `-`, the directory-name filter and the listing's path filter keep the same directories |
| Projects.MatchFromPath | src/server-proxy.ts:121 | an occurrence of the filter in the path is an occurrence of its dashed form in the name |
| Projects.MatchIntoPath | src/server-proxy.ts:444-448 | for a filter without `-`, an occurrence of its dashed form in the name is one of the filter in the path |
| Projects.DashNeverInPath | src/server-proxy.ts:444-448 | a filter holding `-` never occurs in a project path |
| Projects.FiltersDisagreeOnDash | src/server-proxy.ts:587-593 | a filter with `-` that occurs in a name is kept by the directory filter and refused by the listing's |
| Projects.LatestFromIsMaximum | src/server-proxy.ts:74-79 | the fold is the base or one of the readable times, and no readable time is later |
| Projects.LatestIsMaximum | src/server-proxy.ts:71-79 | `lastUpdated` is the epoch or a readable time, never earlier than the epoch or any readable time |
| Projects.LastUpdated | src/server-proxy.ts:71-79 | the loop computes the fold from the epoch |
| Projects.SessionFiles | src/server-proxy.ts:69 | exactly the entries whose name ends with ".jsonl" |
| Projects.Mtimes | src/server-proxy.ts:75 | the modification times of the entries, one per entry, in order |
| Projects.InfoOf | src/server-proxy.ts:81-86 | a project's entry has the session-file count, the path and the display name of its directory |
| Projects.LatestOfFiles | src/server-proxy.ts:71-79 | the fold over entries is the epoch or some entry's time and no readable entry is later |
| Projects.InfoLastUpdated | src/server-proxy.ts:71-79 | a project's `lastUpdated` is the latest time among its ".jsonl" entries, or the epoch |
| Projects.ProjectsDetailed | src/server-proxy.ts:61-87 | no more entries than directories |
| Projects.ProjectsDetailedListed | src/server-proxy.ts:61-87 | exactly the directories that are not hidden and are directories appear in the detailed list |
| Projects.ProjectsDetailedAppend | src/server-proxy.ts:61-87 | the detailed list is built directory by directory in order: the list of a concatenation is the concatenation of the lists |
| Projects.ProjectsDetailedOne | src/server-proxy.ts:61-87 | one directory contributes exactly its entry when it is listed, or nothing |
| Search.WindowStart | src/server-proxy.ts:172 | the window starts 100 before a match past 100 and at 0 otherwise |
| Search.WindowEnd | src/server-proxy.ts:173 | the window ends 100 after the match when more than 100 follow it, and at the end of the value otherwise |
| Search.Excerpt | src/server-proxy.ts:171-179 | a highlight is "..." exactly when cut in front, then the collapsed, trimmed window, then "..." exactly when cut behind; it is at most the query length plus 206, and the whole collapsed value when not cut |
| Search.AffixesKept | src/server-proxy.ts:178-179 | the markers added stay at the ends of the highlight |
| Search.ExcerptShowsMatch | src/server-proxy.ts:171-179 | a match without white space is shown whole in its highlight |
| Search.CollapseTrimKeeps | src/server-proxy.ts:176 | a run without white space survives collapsing and trimming |
| Search.FieldMatch | src/server-proxy.ts:166-171 | a field matches iff it is a non-empty string whose lower-cased text contains the lower-cased query, and then at the first such position |
| Search.FieldExcerpt | src/server-proxy.ts:166-179 | a field gives a highlight iff it matches, at most the query length plus 206 long |
| Search.FirstField | src/server-proxy.ts:165-188 | the found field matches and none before it does; none found means no field from there matches |
| Search.FieldHighlight | src/server-proxy.ts:165-188 | a field highlight is at most the query length plus 206 long |
| Search.FieldHighlightFirst | src/server-proxy.ts:165-188 | there is a field highlight iff some field matches, and it is the excerpt of the first field in list order that does |
| Search.FirstFieldPrefix | src/server-proxy.ts:186 | fields after one that matches are never looked at |
| Search.FieldHighlightPrefix | src/server-proxy.ts:154-162 | probing more fields after ones that already match changes nothing |
| Search.ProbeFields | src/server-proxy.ts:163-188 | the field loop with its `break` computes the first field's highlight |
| Search.ProbeHit | src/server-proxy.ts:165-179 | the first field that matches gives the highlight of its value at the first lower-cased occurrence of the query |
| Search.ProbeMiss | src/server-proxy.ts:165-170 | a field that is not a truthy string, or does not contain the query, hands the search to the next field |
| Search.ToolCallText | src/server-proxy.ts:196 | the tool-call highlight is the query wrapped in the fixed prefix and suffix |
| Search.LineHighlight | src/server-proxy.ts:163-199 | a field match wins; otherwise, only on the full search, a truthy `tool_calls` whose serialisation contains the query gives the tool-call text |
| Search.BasicWithinFull | src/server-proxy.ts:288 | whatever the basic search finds on a line, the full search finds too, the same highlight |
| Search.StampOf | src/server-proxy.ts:149-150 | the first line's date candidate is truthy iff `timestamp` or `ts` is |
| Search.LineHighlights | src/server-proxy.ts:181-184 | a message gives at most one highlight, exactly when it matches, recorded with its index |
| Search.ProbeLine | src/server-proxy.ts:153-199 | the body of the line loop computes the line's highlight |
| Search.ScanLines | src/server-proxy.ts:141-205 | the line loop computes the scan's highlights and session date |
| Search.ScanFromSnoc | src/server-proxy.ts:145 | the scan of one more line is one more step |
| Search.Messages | src/server-proxy.ts:146-147 | the counted lines are no more than the lines |
| Search.Highlights | src/server-proxy.ts:181-184 | no more highlights than messages |
| Search.MessagesAppend | src/server-proxy.ts:146-147 | a line is counted iff it parses to something other than `null` |
| Search.HighlightsAppend | src/server-proxy.ts:181-184 | one more message adds its own highlight, if any, at the end |
| Search.ScanFromSpec | src/server-proxy.ts:141-205 | the scan records the highlight of each counted line that matches, numbered by its place among counted lines; it counts them all and dates the session by the first |
| Search.ScanSpec | src/server-proxy.ts:141-205 | a file's scan, in terms of its counted lines |
| Search.StepSpec | src/server-proxy.ts:145-201 | one counted line extends highlights, count and date as the reference says |
| Search.HighlightsSound | src/server-proxy.ts:181-184 | every highlight belongs to a message that matches, with that message's text, and its index is below the number of counted lines |
| Search.HighlightsIncreasing | src/server-proxy.ts:201 | the recorded indices increase strictly |
| Search.HighlightsComplete | src/server-proxy.ts:181-184 | every counted line that matches has its highlight |
| Search.BasicHighlightsWithinFull | src/server-proxy.ts:288 | a session with basic highlights has full ones |
| Search.SearchFile | src/server-proxy.ts:207-215 | a result exists iff the file is a readable ".jsonl" with a highlight; it shows the first min(cap, n) highlights, counts all n, and has the file's id, path and date |
| Search.SearchFiles | src/server-proxy.ts:132-219 | no more results than entries |
| Search.SearchEndpoint | src/server-proxy.ts:102-104 | a missing or empty query is refused, any other gives the results of all searched directories |
| Search.SearchFilesSpec | src/server-proxy.ts:132-215 | the results of a directory are exactly those of its entries |
| Search.SearchDirsSpec | src/server-proxy.ts:117-128 | the results are exactly those of entries of directories that are directories and, on the full search, pass the filter |
| Search.SearchFilesAppend | src/server-proxy.ts:132-219 | a directory's results are pushed entry by entry in order: the results of a concatenation are the concatenation of the results |
| Search.SearchFilesOne | src/server-proxy.ts:132-219 | one entry contributes exactly its result, or nothing |
| Search.SearchDirsAppend | src/server-proxy.ts:117-128 | the results are gathered directory by directory in order: the results of a concatenation are the concatenation of the results |
| Search.SearchDirsOne | src/server-proxy.ts:117-128 | one searched directory contributes exactly the results of its entries in their order; any other contributes nothing |
| Search.FileResult | src/server-proxy.ts:207-215 | a readable session file gives a result iff one of its counted lines matches |
| Search.BasicFileWithinFull | src/server-proxy.ts:325-333 | every file the basic search reports, the full search reports too |
| Sessions.ParsedMessages | src/server-proxy.ts:366-374 | the messages are the truthy values of lines that parse, each of them |
| Sessions.ParsedMessagesAppend | src/server-proxy.ts:366-374 | the filter keeps the order of the lines |
| Sessions.StampOpt | src/server-proxy.ts:379-383 | the stamp of a message, and the current time when there is no message |
| Sessions.FindFrom | src/server-proxy.ts:360-363 | the first readable entry of that name, none only when there is none |
| Sessions.FindFile | src/server-proxy.ts:360-363 | a file is read iff some readable entry has that name, and then its lines |
| Sessions.DetailOf | src/server-proxy.ts:376-385 | the detail has the id and path, the parsed messages, and the first and last messages' stamps |
| Sessions.FindDirFrom | src/server-proxy.ts:358-391 | the first directory holding the file, none only when none does |
| Sessions.SessionDetail | src/server-proxy.ts:352-393 | not found iff no directory holds a readable file named id + ".jsonl"; otherwise the detail of the first one that does |
| Sessions.ListedSession | src/server-proxy.ts:416-442 | an entry is listed iff it is a read ".jsonl" file with lines whose first and last parse to non-null; then its id, path, title `Session ` + 8 characters, both stamps and messages |
| Sessions.DirSessions | src/server-proxy.ts:416-455 | no more sessions than entries |
| Sessions.DirSessionsSpec | src/server-proxy.ts:416-455 | a directory's sessions are exactly the listed ones of its entries that pass the filter |
| Sessions.CollectSessionsSpec | src/server-proxy.ts:409-456 | the collected sessions are exactly the listed sessions of directory entries that pass the filter |
| Sessions.DirSessionsAppend | src/server-proxy.ts:416-455 | a directory's sessions are pushed entry by entry in order: the sessions of a concatenation are the concatenation of the sessions |
| Sessions.DirSessionsOne | src/server-proxy.ts:416-455 | one entry contributes exactly its session when it is listed and passes the filter, or nothing |
| Sessions.CollectSessionsAppend | src/server-proxy.ts:409-456 | the sessions are collected directory by directory in order: the sessions of a concatenation are the concatenation of the sessions |
| Sessions.CollectSessionsOne | src/server-proxy.ts:409-456 | one directory contributes exactly its sessions in entry order; an entry that is not a directory contributes nothing |
| Preview.RoleName | src/server-proxy.ts:480 | "User" exactly for `'user'`, "Assistant" exactly for `'assistant'`, "System" otherwise |
| Preview.RoleLabel | src/server-proxy.ts:476-486 | the label comes from a truthy `role`, else a truthy `type`, else "System" |
| Preview.ItemTextsSpec | src/server-proxy.ts:500 | one text per item, in order: its truthy `text`, else ""; failing exactly when an item is `null` |
| Preview.RawContent | src/server-proxy.ts:489-501 | a truthy string `content` wins, then a truthy string `text` |
| Preview.RawContentSpec | src/server-proxy.ts:489-501 | failing a truthy string `content` or `text`, a truthy string `summary` is shown, else a truthy string `message.content`, else an array `message.content` as its items' texts joined with " ", else ""; reading the content throws exactly when the fallback is a truthy non-string `summary`, a `message.content` that is neither string nor array, or an array with a `null` element or an element whose text `join` cannot convert |
| Preview.NestedArray | src/server-proxy.ts:495-500 | an array `message.content` fails on a `null` element; otherwise it is the join with " " of each element's truthy `text` or "", failing exactly when `join` cannot convert one |
| Preview.Shape | src/server-proxy.ts:503 | the two replacements and `trim` collapse white space exactly as one `/\s+/g` pass would |
| Preview.Truncate | src/server-proxy.ts:506-508 | content of at most 100 characters is kept; longer content is its first 100 and "..." |
| Preview.SegmentSpec | src/server-proxy.ts:476-510 | a segment fails iff its content does; otherwise it is the label, ": " and the collapsed, cut content |
| Preview.Segments | src/server-proxy.ts:472-473 | one outcome per message |
| Preview.SegmentsAt | src/server-proxy.ts:472-473 | the outcome at i is that message's segment |
| Preview.Pieces | src/server-proxy.ts:512-523 | never more pieces than segments |
| Preview.PreviewLoop | src/server-proxy.ts:464-525 | the budget loop computes the preview |
| Preview.PushPieces | src/server-proxy.ts:470-525 | given the segment of each shown message, the loop pushes exactly the pieces of the budget run and joins them, or ends with the first segment's error |
| Preview.FailStep | src/server-proxy.ts:476-503 | a segment that fails ends the whole run with its error, whatever was pushed before |
| Preview.StopStep | src/server-proxy.ts:512-518 | a segment that does not fit ends the run: what was pushed, then a fragment only when more than 20 characters of budget remain |
| Preview.KeepStep | src/server-proxy.ts:521-522 | a segment that fits is pushed whole and the budget advances by its length and 3 |
| Preview.PiecesFail | src/server-proxy.ts:476-503 | a failing segment ends the run with its error |
| Preview.PiecesKeep | src/server-proxy.ts:512-522 | a fitting segment is kept whole |
| Preview.PiecesStop | src/server-proxy.ts:512-518 | a segment that does not fit ends the run, with a fragment only when more than 20 characters remain |
| Preview.PiecesLength | src/server-proxy.ts:512-525 | what is pushed never takes the joined length past 303 |
| Preview.PreviewLength | src/server-proxy.ts:512-525 | a preview is at most 303 characters |
| Preview.PiecesShape | src/server-proxy.ts:512-521 | each piece is its segment whole, except that the last may be a fragment of more than 20 characters and "..." |
| Preview.PreviewPieces | src/server-proxy.ts:472-525 | at most five pieces, the i-th from the i-th message, whole but the last |
| Preview.PiecesFailure | src/server-proxy.ts:472-512 | a failing run stopped at a failing segment after segments that did not fail |
| Preview.PiecesSucceed | src/server-proxy.ts:472-523 | when every segment can be computed, so can the pieces |
| Preview.PreviewFailure | src/server-proxy.ts:472-501 | a preview fails only through the content of one of the first five messages, and succeeds when all of those succeed |
| Preview.PreviewOfNothing | src/server-proxy.ts:464-525 | a session without messages has the empty preview |
| Sorting.InsertBack | src/server-proxy.ts:459 | placing one session adds exactly one |
| Sorting.SortDesc | src/server-proxy.ts:459 | sorting keeps the number of sessions |
| Sorting.InsertBackPermutes | src/server-proxy.ts:459 | placing a session adds it and nothing else |
| Sorting.SortPermutes | src/server-proxy.ts:459 | sorting only reorders: the same sessions, each as often |
| Sorting.InsertBackLast | src/server-proxy.ts:459 | the last after placing is the placed session or a less recent one |
| Sorting.InsertBackSorted | src/server-proxy.ts:459 | placing into a descending order keeps it descending |
| Sorting.SortSorted | src/server-proxy.ts:459 | the sorted sessions run from most to least recently updated |
| Sorting.SortKeepsOrdered | src/server-proxy.ts:459 | sessions already in descending order are left unchanged |
| Sorting.InsertBackWithKey | src/server-proxy.ts:459 | placing a session leaves the sessions of every time in their order and adds the placed one after those of its own time |
| Sorting.SortStable | src/server-proxy.ts:459 | the sort is stable: for every time, the sessions of that time come out in the order they were collected |
| Sorting.SortSessions | src/server-proxy.ts:459 | the in-place sort of the array leaves it holding the stable descending sort of its old contents |
| Sorting.MoveBack | src/server-proxy.ts:459 | one pass places the next session after every one at least as recent and leaves the rest of the array alone |
| Sorting.ShiftBack | src/server-proxy.ts:459 | the swaps of one pass carry the session left past exactly the less recent ones before it, each moved one place right, and stop after one at least as recent |
| Sorting.AllAbove | src/server-proxy.ts:459 | placing a session that is more recent than last among sessions that all are leaves every one of them at least as recent as last |
| Sorting.InsertBackAt | src/server-proxy.ts:459 | where the pass stops, the session goes between the more recent and the less recent ones |
| Sorting.Placed | src/server-proxy.ts:459 | an array pointwise equal to the shifted sessions is the insertion |
| Sorting.SortDescSnoc | src/server-proxy.ts:459 | sorting one more session places it into the sorted prefix |
| Listing.WithMeta | src/server-proxy.ts:527-531 | the meta succeeds iff the preview does, and keeps the session and counts all its messages |
| Listing.SessionsEndpoint | src/server-proxy.ts:401-534 | the endpoint computes the listing: collect, sort in place, add preview and count, cut the page |
| Listing.AddMeta | src/server-proxy.ts:462-532 | the loop over the sorted sessions computes exactly the map: every session with its count and preview, or the first error |
| Listing.PrependNothing | src/server-proxy.ts:462 | nothing done yet leaves the rest of the map as it is |
| Listing.MetaStep | src/server-proxy.ts:462-532 | one session of the map either joins the done ones with its meta or ends the run with its error |
| Listing.AllMetaSpec | src/server-proxy.ts:462-532 | the map fails iff some session's preview does; otherwise it holds every session, in order, with its count and preview |
| Listing.ListingSpec | src/server-proxy.ts:534 | `total` counts every kept session; the page holds the first min(50, total) of them in sorted order, each with its message count and preview |
| Listing.ListingDescending | src/server-proxy.ts:459 | the page runs from the most recently updated session to the oldest |
| Listing.ListingFailure | src/server-proxy.ts:462-538 | the listing fails as a whole iff the preview of some kept session throws, under a total time key (see "## Left out") |
| Listing.ListingMembers | src/server-proxy.ts:444-449 | the page holds only sessions the filter kept |
| SessionTitle.FirstTitled | src/client/components/SessionItem.test.tsx:101-130 | the first user message with text from a position, and none only when there is none (skipping messages without text is the model's choice) |
| SessionTitle.TitleOfFirstUser | src/client/components/SessionItem.test.tsx:37-42 | the title is the text of the first user message that has any, whatever comes after |
| SessionTitle.UntitledWithoutUser | src/client/components/SessionItem.test.tsx:44-54 | without a user message that has text, the card is "Untitled Session" (the tests show only the empty session; the rest is the model's choice) |
| SessionTitle.TitleSkipsLeading | src/client/components/SessionItem.test.tsx:101-130 | messages of other roles, or user messages without text, ahead of the title message change nothing (the model's choice; the tests do not show such messages) |
| SessionTitle.UserOpens | src/client/components/SessionItem.test.tsx:101-127 | a conversation opened by a user message with string content is titled with it, whatever follows |
| SessionTitle.NoMessagesUntitled | src/client/components/SessionItem.test.tsx:44-54 | a session without messages is "Untitled Session" |

## Left out

- The HTTP layer: Express routing, status codes, JSON responses and the server start.
  Each endpoint is a function or method from its inputs to a value, and error statuses
  are `Failure` values.
- The reverse proxy to the web-client dev server, and `/api/open-claude`, which starts a
  process.
- The export endpoint and the import stub: a collection of files plus a constant envelope.
- File-system calls. Directory listings, `stat` results and file contents are input
  data, and every caught failure is an absent or empty entry. `path.join` is not
  modelled: an entry is found by name in its directory.
- `JSON.parse`: every line arrives already parsed, or as `None`. Blank lines are already
  dropped (`line.trim()`).
- `JSON.stringify(tool_calls)` is the host function `Env.serialize`.
- `toLowerCase` is a per-character mapping `Env.lower`. Unicode case mappings that change
  the length of a string are not modelled.
- Dates. The current time is one string `Env.now`, read once per request. `new
  Date(v).getTime()` is an integer key `Env.timeKey`, a total function. The NaN a bad
  date gives, and the inconsistent comparator it makes, are not modelled. Neither is
  the TypeError `new Date(v)` throws when `v` is an object with an own `toString` that
  is not callable (or an array holding one), the conversion `JsonValue.JoinElement`
  models for `join`. In the listing the comparator of server-proxy.ts:459 reaches such
  an `updated_at` whenever two or more sessions are kept, and the request then answers
  500.
- Listing.ListingFailure: its "fails exactly when some preview throws" holds under the
  total time key above. The source's listing can also fail in the sort.
- Logging, and the `totalFilesSearched` counter, which only feeds a log line.
- The loops over directories and over the files of a directory are modelled as recursive
  functions. Only the loops with interesting state (lines of a file, fields of a line,
  the preview budget, `lastUpdated`, the sort) are methods.
- A record that is a JavaScript string is modelled as a value with no properties (a
  `JStr`). The string's own `length` and index properties are never read by the core.
- UTF-16. A string is a sequence of characters, each a Unicode scalar value, while
  JavaScript strings are sequences of UTF-16 code units. For text outside the Basic
  Multilingual Plane (emoji, for instance) every length and cut point differs: the
  ±100-character search window, the 100-character cut of a preview message, the
  300-character preview budget and `substring(0, 8)` of a session title all count one
  character where the code counts two. A cut that falls inside a surrogate pair,
  which the code can produce, cannot be represented, and string `<` compares scalar
  values where the code compares code units.
- Search.SearchEndpoint: `q` as an array (a repeated query parameter) is not modelled.
  The query is an optional string.
- A repeated `project` parameter is not modelled: the filter is an optional string.
  In the full search `projectFilter.replace` (server-proxy.ts:121) would throw on the
  array, and in the listing (server-proxy.ts:446) `includes` would see its elements
  joined with ",".
- SessionTitle: the card component is not part of this model. Its tests decide only a
  title from a leading user message and "Untitled Session" for an empty session.
  Skipping user messages without text and messages of other roles
  (SessionTitle.FirstTitled, SessionTitle.TitleSkipsLeading) and "Untitled Session"
  when no user message has text (SessionTitle.UntitledWithoutUser) are this model's
  choice. The text is the corrected extraction `MessageContent.ExtractText`.

## Findings

| source | as written | input that shows it | evidently intended | confidence | as-written member | corrected member |
|---|---|---|---|---|---|---|
| src/utils/extractMessageContent.ts:15-18 | the texts of the nested array are joined with `join(' ')`, which converts each text to a string | `{ message: { content: [ { type: 'text', text: { toString: 1 } } ] } }`: converting the object finds a `toString` that is not callable, and `valueOf` gives back an object, so a TypeError is thrown | a total function from any JSON value to a string, as the module's contract and its callers rely on | not executed | MessageContent.ExtractMessageContent, MessageContent.UnconvertibleTextThrows | MessageContent.ExtractText, MessageContent.ExtractTextAgrees |
