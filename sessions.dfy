/** Session assembly: the detail view of one session and the sessions the listing
    collects from the project directories. */
module Sessions {
  import opened Wrappers
  import opened JsonValue
  import opened Text
  import opened Storage
  import opened Projects

  /** A session as both endpoints build it; the detail view has no title. */
  datatype Session = Session(
    id: string, project: string, title: Option<string>, createdAt: Json, updatedAt: Json, messages: seq<Json>)

  /** No project directory holds a readable file of that name (status 404). */
  datatype DetailError = NotFound

  /** `lines.map(parse-or-null).filter(Boolean)`: the values of the lines that parse
      to something truthy, in order. */
  function ParsedMessages(lines: seq<Line>): (r: seq<Json>)
    ensures |r| <= |lines|
    ensures forall m :: m in r ==> Truthy(m) && Some(m) in lines
    ensures forall i :: 0 <= i < |lines| && TruthyOpt(lines[i]) ==> lines[i].value in r
  {
    if lines == [] then []
    else (if TruthyOpt(lines[0]) then [lines[0].value] else []) + ParsedMessages(lines[1..])
  }

  /** The filter keeps the order of the lines. */
  lemma {:induction false} ParsedMessagesAppend(a: seq<Line>, b: seq<Line>)
    ensures ParsedMessages(a + b) == ParsedMessages(a) + ParsedMessages(b)
  {
    if a == [] {
      assert a + b == b;
    } else {
      assert (a + b)[1..] == a[1..] + b;
      ParsedMessagesAppend(a[1..], b);
    }
  }

  /** `m?.timestamp || m?.ts || now` on an element that may be missing. */
  function StampOpt(m: Option<Json>, now: string): (r: Json)
    ensures m.None? ==> r == JStr(now)
    ensures m.Some? ==> r == Stamp(m.value, now)
  {
    if m.Some? then Stamp(m.value, now) else JStr(now)
  }

  function First(msgs: seq<Json>): Option<Json> {
    if msgs == [] then None else Some(msgs[0])
  }

  function Last(msgs: seq<Json>): Option<Json> {
    if msgs == [] then None else Some(msgs[|msgs| - 1])
  }

  /** An entry called name whose contents could be read. */
  predicate Readable(f: FileEntry, name: string) {
    f.name == name && f.lines.Some?
  }

  /** The position of the first readable entry called name, from i on. */
  function FindFrom(files: seq<FileEntry>, name: string, i: nat): (r: Option<nat>)
    requires forall j :: 0 <= j < i && j < |files| ==> !Readable(files[j], name)
    ensures r.Some? ==>
      && r.value < |files| && Readable(files[r.value], name)
      && forall j :: 0 <= j < r.value ==> !Readable(files[j], name)
    ensures r.None? ==> forall j :: 0 <= j < |files| ==> !Readable(files[j], name)
    decreases |files| - i
  {
    if i >= |files| then None
    else if Readable(files[i], name) then Some(i)
    else FindFrom(files, name, i + 1)
  }

  /** `readFile(path.join(projectPath, name))` in one directory: the lines of the
      first readable entry called name. */
  function FindFile(files: seq<FileEntry>, name: string): (r: Option<seq<Line>>)
    ensures r.Some? <==> exists j :: 0 <= j < |files| && Readable(files[j], name)
    ensures r.Some? ==> Some(r.value) in set f | f in files && Readable(f, name) :: f.lines
  {
    match FindFrom(files, name, 0)
    case None => None
    case Some(i) => files[i].lines
  }

  /** The detail view of one session built from its lines. */
  function DetailOf(id: string, dir: string, lines: seq<Line>, now: string): (r: Session)
    ensures r.id == id && r.project == ProjectPath(dir) && r.title.None?
    ensures r.messages == ParsedMessages(lines)
    ensures r.createdAt == StampOpt(First(r.messages), now)
    ensures r.updatedAt == StampOpt(Last(r.messages), now)
  {
    var msgs := ParsedMessages(lines);
    Session(id, ProjectPath(dir), None, StampOpt(First(msgs), now), StampOpt(Last(msgs), now), msgs)
  }

  /** The position of the first directory, from i on, holding a readable entry called
      name. */
  function FindDirFrom(dirs: seq<DirEntry>, name: string, i: nat): (r: Option<nat>)
    requires forall j :: 0 <= j < i && j < |dirs| ==> FindFile(dirs[j].files, name).None?
    ensures r.Some? ==>
      && r.value < |dirs| && FindFile(dirs[r.value].files, name).Some?
      && forall j :: 0 <= j < r.value ==> FindFile(dirs[j].files, name).None?
    ensures r.None? ==> forall j :: 0 <= j < |dirs| ==> FindFile(dirs[j].files, name).None?
    decreases |dirs| - i
  {
    if i >= |dirs| then None
    else if FindFile(dirs[i].files, name).Some? then Some(i)
    else FindDirFrom(dirs, name, i + 1)
  }

  /** GET /api/session/:id: the session in the first project directory, in listing
      order, holding a readable file named id + ".jsonl". Hidden and non-directory
      entries are tried too; for the latter the read fails. */
  function SessionDetail(id: string, now: string, dirs: seq<DirEntry>): (r: Result<Session, DetailError>)
    ensures r.Failure? <==> forall j :: 0 <= j < |dirs| ==> FindFile(dirs[j].files, id + ".jsonl").None?
    ensures r.Success? ==> exists i ::
      && 0 <= i < |dirs|
      && FindFile(dirs[i].files, id + ".jsonl").Some?
      && (forall j :: 0 <= j < i ==> FindFile(dirs[j].files, id + ".jsonl").None?)
      && r.value == DetailOf(id, dirs[i].name, FindFile(dirs[i].files, id + ".jsonl").value, now)
  {
    match FindDirFrom(dirs, id + ".jsonl", 0)
    case None => Failure(NotFound)
    case Some(i) => Success(DetailOf(id, dirs[i].name, FindFile(dirs[i].files, id + ".jsonl").value, now))
  }

  /** The listing's session for one entry of a project directory, or None when the
      entry is skipped: it is not a ".jsonl" file, it cannot be read, it has no
      lines, or its first or last line does not parse or parses to `null`. */
  function ListedSession(dir: string, file: FileEntry, now: string): (r: Option<Session>)
    ensures r.Some? <==>
      IsSessionFile(file.name) && file.lines.Some? && file.lines.value != [] &&
      Usable(file.lines.value[0]) && Usable(file.lines.value[|file.lines.value| - 1])
    ensures r.Some? ==>
      var lines := file.lines.value;
      && r.value.id == SessionId(file.name)
      && r.value.project == ProjectPath(dir)
      && r.value.title == Some("Session " + Take(file.name, 8))
      && r.value.createdAt == Stamp(lines[0].value, now)
      && r.value.updatedAt == Stamp(lines[|lines| - 1].value, now)
      && r.value.messages == ParsedMessages(lines)
  {
    if !IsSessionFile(file.name) || file.lines.None? then None
    else
      var lines := file.lines.value;
      if lines == [] || !Usable(lines[0]) || !Usable(lines[|lines| - 1]) then None
      else
        Some(Session(SessionId(file.name), ProjectPath(dir), Some("Session " + Take(file.name, 8)),
          Stamp(lines[0].value, now), Stamp(lines[|lines| - 1].value, now), ParsedMessages(lines)))
  }

  /** The listing's sessions of one directory that pass the project filter, in order. */
  function DirSessions(d: DirEntry, filter: Option<string>, now: string, files: seq<FileEntry>): (r: seq<Session>)
    ensures |r| <= |files|
  {
    if files == [] then []
    else
      var s := ListedSession(d.name, files[0], now);
      (if s.Some? && KeepSession(filter, s.value.project) then [s.value] else []) +
      DirSessions(d, filter, now, files[1..])
  }

  /** The sessions of all directories, in directory order, before sorting. Every
      directory is read, the hidden ones included. */
  function CollectSessions(dirs: seq<DirEntry>, filter: Option<string>, now: string): seq<Session>
  {
    if dirs == [] then []
    else
      (if dirs[0].isDir then DirSessions(dirs[0], filter, now, dirs[0].files) else []) +
      CollectSessions(dirs[1..], filter, now)
  }

  /** A listed session of a directory entry that passes the filter. */
  predicate Collected(d: DirEntry, f: FileEntry, filter: Option<string>, now: string, s: Session) {
    d.isDir && f in d.files && ListedSession(d.name, f, now) == Some(s) && KeepSession(filter, s.project)
  }

  lemma {:induction false} DirSessionsSpec(d: DirEntry, filter: Option<string>, now: string, files: seq<FileEntry>)
    ensures forall s :: s in DirSessions(d, filter, now, files) <==>
      exists f :: f in files && ListedSession(d.name, f, now) == Some(s) && KeepSession(filter, s.project)
  {
    if files != [] {
      DirSessionsSpec(d, filter, now, files[1..]);
      forall s ensures s in DirSessions(d, filter, now, files) <==>
        exists f :: f in files && ListedSession(d.name, f, now) == Some(s) && KeepSession(filter, s.project)
      {
        if f :| f in files && ListedSession(d.name, f, now) == Some(s) && KeepSession(filter, s.project) {
          if f != files[0] {
            assert f in files[1..];
          }
        }
        if s in DirSessions(d, filter, now, files[1..]) {
          var f :| f in files[1..] && ListedSession(d.name, f, now) == Some(s) && KeepSession(filter, s.project);
          assert f in files;
        }
      }
    }
  }

  /** Unfolding one step of DirSessions on a concatenation. */
  lemma DirSessionsStep(d: DirEntry, filter: Option<string>, now: string, a: seq<FileEntry>, b: seq<FileEntry>)
    requires a != []
    ensures DirSessions(d, filter, now, a + b) == (var s := ListedSession(d.name, a[0], now); if s.Some? && KeepSession(filter, s.value.project) then [s.value] else []) + DirSessions(d, filter, now, a[1..] + b)
  {
    assert (a + b)[0] == a[0] && (a + b)[1..] == a[1..] + b;
  }

  /** The sessions of a concatenation of entries are those of each part, in entry order. */
  lemma {:induction false} DirSessionsAppend(d: DirEntry, filter: Option<string>, now: string, a: seq<FileEntry>, b: seq<FileEntry>)
    ensures DirSessions(d, filter, now, a + b) == DirSessions(d, filter, now, a) + DirSessions(d, filter, now, b)
  {
    if a == [] {
      assert a + b == b;
    } else {
      var h: seq<Session> := var s := ListedSession(d.name, a[0], now); if s.Some? && KeepSession(filter, s.value.project) then [s.value] else [];
      DirSessionsStep(d, filter, now, a, b);
      DirSessionsAppend(d, filter, now, a[1..], b);
      AppendAssoc(h, DirSessions(d, filter, now, a[1..]), DirSessions(d, filter, now, b));
    }
  }

  /** One entry gives its session when it is listed and passes the filter, and nothing else. */
  lemma DirSessionsOne(d: DirEntry, filter: Option<string>, now: string, f: FileEntry)
    ensures DirSessions(d, filter, now, [f]) == var s := ListedSession(d.name, f, now); if s.Some? && KeepSession(filter, s.value.project) then [s.value] else []
  {
    assert [f][1..] == [];
  }

  /** The listing holds exactly the listed sessions of directory entries that pass the
      project filter. */
  lemma {:induction false} CollectSessionsSpec(dirs: seq<DirEntry>, filter: Option<string>, now: string)
    ensures forall s :: s in CollectSessions(dirs, filter, now) <==>
      exists d, f :: d in dirs && Collected(d, f, filter, now, s)
  {
    if dirs != [] {
      var d0 := dirs[0];
      CollectSessionsSpec(dirs[1..], filter, now);
      DirSessionsSpec(d0, filter, now, d0.files);
      forall s ensures s in CollectSessions(dirs, filter, now) <==>
        exists d, f :: d in dirs && Collected(d, f, filter, now, s)
      {
        if d, f :| d in dirs && Collected(d, f, filter, now, s) {
          if d != d0 {
            assert d in dirs[1..];
          }
        }
        if s in CollectSessions(dirs[1..], filter, now) {
          var d, f :| d in dirs[1..] && Collected(d, f, filter, now, s);
          assert d in dirs;
        }
        if d0.isDir && s in DirSessions(d0, filter, now, d0.files) {
          var f :| f in d0.files && ListedSession(d0.name, f, now) == Some(s) && KeepSession(filter, s.project);
          assert Collected(d0, f, filter, now, s);
          assert d0 in dirs;
        }
      }
    }
  }

  /** Unfolding one step of CollectSessions on a concatenation. */
  lemma CollectSessionsStep(a: seq<DirEntry>, b: seq<DirEntry>, filter: Option<string>, now: string)
    requires a != []
    ensures CollectSessions(a + b, filter, now) == (if a[0].isDir then DirSessions(a[0], filter, now, a[0].files) else []) + CollectSessions(a[1..] + b, filter, now)
  {
    assert (a + b)[0] == a[0] && (a + b)[1..] == a[1..] + b;
  }

  /** The sessions of a concatenation of directories are those of each part, in
      directory order. */
  lemma {:induction false} CollectSessionsAppend(a: seq<DirEntry>, b: seq<DirEntry>, filter: Option<string>, now: string)
    ensures CollectSessions(a + b, filter, now) == CollectSessions(a, filter, now) + CollectSessions(b, filter, now)
  {
    if a == [] {
      assert a + b == b;
    } else {
      var h: seq<Session> := if a[0].isDir then DirSessions(a[0], filter, now, a[0].files) else [];
      CollectSessionsStep(a, b, filter, now);
      CollectSessionsAppend(a[1..], b, filter, now);
      AppendAssoc(h, CollectSessions(a[1..], filter, now), CollectSessions(b, filter, now));
    }
  }

  /** A directory gives its sessions, in entry order; any other entry gives none. */
  lemma CollectSessionsOne(d: DirEntry, filter: Option<string>, now: string)
    ensures CollectSessions([d], filter, now) == if d.isDir then DirSessions(d, filter, now, d.files) else []
  {
    assert [d][1..] == [];
  }
}
