/** Project directories: their display name and path, the hidden-entry rule, the
    project filters, and the most recent modification time of a project. */
module Projects {
  import opened Wrappers
  import opened Text
  import opened Storage

  /** `new Date(0).toISOString()`. */
  const Epoch := "1970-01-01T00:00:00.000Z"

  /** `dir.replace(/-/g, '/')`: the project path encoded in a directory name. */
  function ProjectPath(dir: string): (r: string)
    ensures |r| == |dir| && '-' !in r
    ensures forall i :: 0 <= i < |dir| ==> r[i] == if dir[i] == '-' then '/' else dir[i]
  {
    ReplaceChar(dir, '-', '/')
  }

  /** A directory name cannot hold '/', so the path gives the name back. */
  lemma PathRoundTrip(dir: string)
    requires '/' !in dir
    ensures ReplaceChar(ProjectPath(dir), '/', '-') == dir
  {
    var back := ReplaceChar(ProjectPath(dir), '/', '-');
    assert forall i :: 0 <= i < |dir| ==> back[i] == dir[i];
  }

  /** `s.split('-').pop()`: the text after the last '-', all of s when it has none. */
  function LastSegment(s: string): (r: string)
    ensures |r| <= |s| && r == s[|s| - |r|..]
    ensures '-' !in r
    ensures |r| < |s| ==> s[|s| - |r| - 1] == '-'
  {
    if s == [] || s[|s| - 1] == '-' then []
    else LastSegment(s[..|s| - 1]) + [s[|s| - 1]]
  }

  /** `dir.split('-').pop() || dir`: the display name of a project. */
  function DisplayName(dir: string): (r: string)
    ensures |r| <= |dir| && r == dir[|dir| - |r|..]
    ensures '-' !in dir ==> r == dir
    ensures dir != [] && dir[|dir| - 1] == '-' ==> r == dir
    ensures dir != [] && dir[|dir| - 1] != '-' ==> '-' !in r && (r == dir || dir[|dir| - |r| - 1] == '-')
  {
    var last := LastSegment(dir);
    if last != "" then last else dir
  }

  /** `name.startsWith('.')`: hidden entries are not projects. */
  predicate IsHidden(name: string) {
    StartsWith(name, ".")
  }

  /** The project list: the path of every entry that is not hidden, in order. */
  function ProjectNames(entries: seq<string>): (r: seq<string>)
    ensures |r| <= |entries|
    ensures forall x :: x in r ==> exists e :: e in entries && !IsHidden(e) && x == ProjectPath(e)
    ensures forall e :: e in entries && !IsHidden(e) ==> ProjectPath(e) in r
  {
    if entries == [] then []
    else (if IsHidden(entries[0]) then [] else [ProjectPath(entries[0])]) + ProjectNames(entries[1..])
  }

  /** Unfolding one step of ProjectNames on a concatenation. */
  lemma ProjectNamesStep(a: seq<string>, b: seq<string>)
    requires a != []
    ensures ProjectNames(a + b) == (if IsHidden(a[0]) then [] else [ProjectPath(a[0])]) + ProjectNames(a[1..] + b)
  {
    assert (a + b)[0] == a[0] && (a + b)[1..] == a[1..] + b;
  }

  /** The list of a concatenation is the concatenation of the lists: one name per entry
      that is not hidden, in entry order. */
  lemma {:induction false} ProjectNamesAppend(a: seq<string>, b: seq<string>)
    ensures ProjectNames(a + b) == ProjectNames(a) + ProjectNames(b)
  {
    if a == [] {
      assert a + b == b;
    } else {
      var h: seq<string> := if IsHidden(a[0]) then [] else [ProjectPath(a[0])];
      ProjectNamesStep(a, b);
      ProjectNamesAppend(a[1..], b);
      AppendAssoc(h, ProjectNames(a[1..]), ProjectNames(b));
    }
  }

  /** One entry gives its path, unless it is hidden. */
  lemma ProjectNamesOne(e: string)
    ensures ProjectNames([e]) == if IsHidden(e) then [] else [ProjectPath(e)]
  {
    assert [e][1..] == [];
  }

  /** The filter of the full-text search and the export, on a directory name:
      `filter && filter !== 'all' && !dir.includes(filter.replace(/\//g, '-'))` skips it. */
  predicate KeepDir(filter: Option<string>, dir: string) {
    filter.None? || filter.value == "" || filter.value == "all" || Contains(dir, ReplaceChar(filter.value, '/', '-'))
  }

  /** The filter of the session listing, on the project path:
      `!filter || filter === 'all' || project.includes(filter)` keeps it. */
  predicate KeepSession(filter: Option<string>, project: string) {
    filter.None? || filter.value == "" || filter.value == "all" || Contains(project, filter.value)
  }

  /** For a filter without '-', the two filters agree on every directory. */
  lemma FiltersAgree(filter: Option<string>, dir: string)
    requires '/' !in dir
    requires filter.Some? ==> '-' !in filter.value
    ensures KeepSession(filter, ProjectPath(dir)) <==> KeepDir(filter, dir)
  {
    if filter.Some? && filter.value != "" && filter.value != "all" {
      var f := filter.value;
      var g := ReplaceChar(f, '/', '-');
      var p := ProjectPath(dir);
      if Contains(p, f) {
        var k := IndexOf(p, f).value;
        MatchFromPath(dir, f, k);
        ContainsAt(dir, g, k);
      }
      if Contains(dir, g) {
        var k := IndexOf(dir, g).value;
        MatchIntoPath(dir, f, k);
        ContainsAt(p, f, k);
      }
    }
  }

  /** An occurrence of f in the path is one of f's dashed form in a name without '/'. */
  lemma MatchFromPath(dir: string, f: string, k: nat)
    requires '/' !in dir
    requires MatchAt(ProjectPath(dir), f, k)
    ensures MatchAt(dir, ReplaceChar(f, '/', '-'), k)
  {
    var p, g := ProjectPath(dir), ReplaceChar(f, '/', '-');
    assert forall i :: 0 <= i < |f| ==> f[i] == p[k + i];
    assert forall i :: 0 <= i < |g| ==> dir[k + i] == g[i];
    assert dir[k..k + |g|] == g;
  }

  /** Without '/' in the name and '-' in f, the converse holds. */
  lemma MatchIntoPath(dir: string, f: string, k: nat)
    requires '/' !in dir && '-' !in f
    requires MatchAt(dir, ReplaceChar(f, '/', '-'), k)
    ensures MatchAt(ProjectPath(dir), f, k)
  {
    var p, g := ProjectPath(dir), ReplaceChar(f, '/', '-');
    assert forall i :: 0 <= i < |g| ==> g[i] == dir[k + i];
    assert p[k..k + |f|] == f;
  }

  /** A '-' in a filter never occurs in a project path. */
  lemma DashNeverInPath(dir: string, f: string)
    requires '-' in f
    ensures !Contains(ProjectPath(dir), f)
  {
  }

  /** A filter with a '-' that occurs in a directory name tells the two filters apart:
      the search keeps the directory ("my-app" in "-home-me-my-app"), the session
      listing drops its sessions. */
  lemma FiltersDisagreeOnDash(dir: string, f: string)
    requires '-' in f && '/' !in f && Contains(dir, f)
    ensures KeepDir(Some(f), dir)
    ensures !KeepSession(Some(f), ProjectPath(dir))
  {
    assert ReplaceChar(f, '/', '-') == f;
    DashNeverInPath(dir, f);
  }

  /** The most recent of some modification times, starting from base: strings
      compared with `>`, times that could not be read skipped. */
  function LatestFrom(base: string, mtimes: seq<Option<string>>): string
  {
    if mtimes == [] then base
    else
      var prev := LatestFrom(base, mtimes[..|mtimes| - 1]);
      var t := mtimes[|mtimes| - 1];
      if t.Some? && Less(prev, t.value) then t.value else prev
  }

  /** The `lastUpdated` of a project: the fold from the epoch. */
  function Latest(mtimes: seq<Option<string>>): string
  {
    LatestFrom(Epoch, mtimes)
  }

  /** LatestFrom is the maximum, in string order, of base and the readable times. */
  lemma {:induction false} LatestFromIsMaximum(base: string, mtimes: seq<Option<string>>)
    ensures LatestFrom(base, mtimes) == base || Some(LatestFrom(base, mtimes)) in mtimes
    ensures !Less(LatestFrom(base, mtimes), base)
    ensures forall t :: Some(t) in mtimes ==> !Less(LatestFrom(base, mtimes), t)
  {
    if mtimes == [] {
      LessIrreflexive(base);
    } else {
      var init := mtimes[..|mtimes| - 1];
      LatestFromIsMaximum(base, init);
      var prev, t, r := LatestFrom(base, init), mtimes[|mtimes| - 1], LatestFrom(base, mtimes);
      assert mtimes == init + [t];
      if t.Some? && Less(prev, t.value) {
        assert r == t.value;
        if Less(r, base) { LessTransitive(prev, r, base); }
        forall u | Some(u) in mtimes ensures !Less(r, u) {
          if Some(u) in init {
            if Less(r, u) { LessTransitive(prev, r, u); }
          } else {
            LessIrreflexive(u);
          }
        }
      } else {
        assert r == prev;
        forall u | Some(u) in mtimes ensures !Less(r, u) {
          if Some(u) !in init {
            assert t == Some(u);
          }
        }
      }
    }
  }

  /** Latest is the maximum, in string order, of the epoch and the readable times. */
  lemma LatestIsMaximum(mtimes: seq<Option<string>>)
    ensures Latest(mtimes) == Epoch || Some(Latest(mtimes)) in mtimes
    ensures !Less(Latest(mtimes), Epoch)
    ensures forall t :: Some(t) in mtimes ==> !Less(Latest(mtimes), t)
  {
    var e := Epoch;
    LatestFromIsMaximum(e, mtimes);
  }

  /** The `lastUpdated` loop. */
  method LastUpdated(mtimes: seq<Option<string>>) returns (last: string)
    ensures last == Latest(mtimes)
  {
    last := Epoch;
    var i := 0;
    while i < |mtimes|
      invariant 0 <= i <= |mtimes|
      invariant last == LatestFrom(Epoch, mtimes[..i])
    {
      assert mtimes[..i + 1][..i] == mtimes[..i];
      var t := mtimes[i];
      if t.Some? && Less(last, t.value) {
        last := t.value;
      }
      i := i + 1;
    }
    assert mtimes[..i] == mtimes;
  }

  /** An entry of the detailed project list. */
  datatype ProjectInfo = ProjectInfo(name: string, path: string, sessionCount: nat, lastUpdated: string)

  /** The entries of a directory whose name ends in ".jsonl". */
  function SessionFiles(files: seq<FileEntry>): (r: seq<FileEntry>)
    ensures |r| <= |files|
    ensures forall f :: f in r <==> f in files && IsSessionFile(f.name)
  {
    if files == [] then []
    else (if IsSessionFile(files[0].name) then [files[0]] else []) + SessionFiles(files[1..])
  }

  /** The modification times of some entries, in order. */
  function Mtimes(files: seq<FileEntry>): (r: seq<Option<string>>)
    ensures |r| == |files|
    ensures forall i :: 0 <= i < |files| ==> r[i] == files[i].mtime
  {
    if files == [] then [] else [files[0].mtime] + Mtimes(files[1..])
  }

  /** The entry of the detailed list for one project directory. */
  function InfoOf(d: DirEntry): (r: ProjectInfo)
    ensures r.sessionCount == |SessionFiles(d.files)|
    ensures r.path == ProjectPath(d.name) && r.name == DisplayName(d.name)
  {
    var files := SessionFiles(d.files);
    ProjectInfo(DisplayName(d.name), ProjectPath(d.name), |files|, Latest(Mtimes(files)))
  }

  /** The fold over the times of some entries yields the latest of them, or the epoch. */
  lemma LatestOfFiles(files: seq<FileEntry>)
    ensures var last := Latest(Mtimes(files));
      && (last == Epoch || exists f :: f in files && f.mtime == Some(last))
      && (forall f :: f in files && f.mtime.Some? ==> !Less(last, f.mtime.value))
  {
    var ms := Mtimes(files);
    var e := Epoch;
    var last := LatestFrom(e, ms);
    LatestFromIsMaximum(e, ms);
    forall f | f in files && f.mtime.Some?
      ensures !Less(last, f.mtime.value)
    {
      var i :| 0 <= i < |files| && files[i] == f;
      assert ms[i] == f.mtime;
    }
    if last != e {
      var i :| 0 <= i < |ms| && ms[i] == Some(last);
      assert files[i] in files;
    }
  }

  /** Each project's `lastUpdated` is the latest time among its ".jsonl" entries, or
      the epoch. */
  lemma InfoLastUpdated(d: DirEntry)
    ensures var last := InfoOf(d).lastUpdated;
      && (last == Epoch || exists f :: f in d.files && IsSessionFile(f.name) && f.mtime == Some(last))
      && (forall f :: f in d.files && IsSessionFile(f.name) && f.mtime.Some? ==> !Less(last, f.mtime.value))
  {
    var files := SessionFiles(d.files);
    LatestOfFiles(files);
  }

  /** A directory that is listed as a project. */
  predicate Listed(d: DirEntry) {
    !IsHidden(d.name) && d.isDir
  }

  /** The detailed project list: one entry per directory that is not hidden, in order. */
  function ProjectsDetailed(dirs: seq<DirEntry>): (r: seq<ProjectInfo>)
    ensures |r| <= |dirs|
  {
    if dirs == [] then []
    else (if Listed(dirs[0]) then [InfoOf(dirs[0])] else []) + ProjectsDetailed(dirs[1..])
  }

  /** Exactly the listed directories appear in the detailed project list. */
  lemma {:induction false} ProjectsDetailedListed(dirs: seq<DirEntry>)
    ensures forall p :: p in ProjectsDetailed(dirs) ==> exists d :: d in dirs && Listed(d) && p == InfoOf(d)
    ensures forall d :: d in dirs && Listed(d) ==> InfoOf(d) in ProjectsDetailed(dirs)
  {
    if dirs != [] {
      var rest := ProjectsDetailed(dirs[1..]);
      ProjectsDetailedListed(dirs[1..]);
      forall p | p in ProjectsDetailed(dirs)
        ensures exists d :: d in dirs && Listed(d) && p == InfoOf(d)
      {
        if p in rest {
          var d :| d in dirs[1..] && Listed(d) && p == InfoOf(d);
          assert d in dirs;
        } else {
          assert dirs[0] in dirs;
        }
      }
      forall d | d in dirs && Listed(d) ensures InfoOf(d) in ProjectsDetailed(dirs) {
        if d != dirs[0] {
          assert d in dirs[1..];
        }
      }
    }
  }

  /** Unfolding one step of ProjectsDetailed on a concatenation. */
  lemma ProjectsDetailedStep(a: seq<DirEntry>, b: seq<DirEntry>)
    requires a != []
    ensures ProjectsDetailed(a + b) == (if Listed(a[0]) then [InfoOf(a[0])] else []) + ProjectsDetailed(a[1..] + b)
  {
    assert (a + b)[0] == a[0] && (a + b)[1..] == a[1..] + b;
  }

  /** The detailed list of a concatenation is the concatenation of the lists: one entry
      per listed directory, in directory order. */
  lemma {:induction false} ProjectsDetailedAppend(a: seq<DirEntry>, b: seq<DirEntry>)
    ensures ProjectsDetailed(a + b) == ProjectsDetailed(a) + ProjectsDetailed(b)
  {
    if a == [] {
      assert a + b == b;
    } else {
      var h: seq<ProjectInfo> := if Listed(a[0]) then [InfoOf(a[0])] else [];
      ProjectsDetailedStep(a, b);
      ProjectsDetailedAppend(a[1..], b);
      AppendAssoc(h, ProjectsDetailed(a[1..]), ProjectsDetailed(b));
    }
  }

  /** One directory gives its entry, unless it is hidden or not a directory. */
  lemma ProjectsDetailedOne(d: DirEntry)
    ensures ProjectsDetailed([d]) == if Listed(d) then [InfoOf(d)] else []
  {
    assert [d][1..] == [];
  }
}
