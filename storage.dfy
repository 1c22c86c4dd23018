/** The storage snapshot a request reads, and what the host supplies besides it.
    Directory listings, `stat` and file reads are given as data: every soft failure
    the code catches appears as an absent or empty entry. */
module Storage {
  import opened Wrappers
  import opened JsonValue
  import opened Text

  /** One non-blank line of a transcript file after `JSON.parse`: None when it does
      not parse. */
  type Line = Option<Json>

  /** A directory entry inside a project directory: its name, its modification time as
      an ISO-8601 string (None when `stat` fails) and its non-blank lines (None when
      `readFile` fails, for instance because the entry is a directory). */
  datatype FileEntry = FileEntry(name: string, mtime: Option<string>, lines: Option<seq<Line>>)

  /** An entry of the projects directory: its name, whether `stat` says it is a
      directory (false when `stat` fails) and its entries (empty when `readdir`
      fails). */
  datatype DirEntry = DirEntry(name: string, isDir: bool, files: seq<FileEntry>)

  /** What the host supplies: one reading of the clock as an ISO-8601 string, the
      per-character case mapping of `toLowerCase`, `JSON.stringify`, and
      `new Date(v).getTime()` as a key on timestamps. */
  datatype Env = Env(now: string, lower: char -> char, serialize: Json -> string, timeKey: Json -> int)

  /** A line whose parsed value can have its properties read: it parsed, and it is
      not `null`, on which a property read throws. */
  predicate Usable(line: Line) {
    line.Some? && line.value != JNull
  }

  /** `file.endsWith('.jsonl')`. */
  predicate IsSessionFile(name: string) {
    EndsWith(name, ".jsonl")
  }

  /** `file.replace('.jsonl', '')`: the first occurrence of ".jsonl" is removed. */
  function SessionId(name: string): (r: string)
    ensures Contains(name, ".jsonl") ==> |r| == |name| - 6
    ensures !Contains(name, ".jsonl") ==> r == name
  {
    ReplaceFirst(name, ".jsonl", "")
  }

  /** A name with a single ".jsonl", at its end, loses exactly that suffix. */
  lemma SessionIdOfPlainName(stem: string)
    requires IndexOf(stem + ".jsonl", ".jsonl") == Some(|stem|)
    ensures SessionId(stem + ".jsonl") == stem
  {
    var name := stem + ".jsonl";
    assert MatchAt(name, ".jsonl", |stem|) by {
      assert name[|stem|..|stem| + 6] == ".jsonl";
    }
    assert name[..|stem|] == stem;
  }
}
