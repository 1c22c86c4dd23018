/** String operations of JavaScript's standard library, on strings as sequences of
    characters (Unicode scalar values, not UTF-16 code units): white-space collapsing
    and trimming, searching, replacing, slicing and the order of the `<` operator. */
module Text {
  import opened Wrappers

  /** The characters of ECMAScript's WhiteSpace and LineTerminator classes, which both
      the regular-expression class `\s` and `String.prototype.trim` use. */
  predicate IsSpace(c: char) {
    || c == '\t' || c == '\n' || c == '\U{B}' || c == '\U{C}' || c == '\r' || c == ' '
    || c == '\U{A0}' || c == '\U{1680}' || ('\U{2000}' <= c <= '\U{200A}')
    || c == '\U{2028}' || c == '\U{2029}' || c == '\U{202F}' || c == '\U{205F}'
    || c == '\U{3000}' || c == '\U{FEFF}'
  }

  /** The class of the regular expression `/\n+/`. */
  predicate IsNewline(c: char) {
    c == '\n'
  }

  /** s without its longest prefix of characters that satisfy p. */
  function DropWhile(s: string, p: char -> bool): (r: string)
    ensures |r| <= |s| && r == s[|s| - |r|..]
    ensures forall i :: 0 <= i < |s| - |r| ==> p(s[i])
    ensures r == [] || !p(r[0])
  {
    if s == [] || !p(s[0]) then s else DropWhile(s[1..], p)
  }

  /** `s.replace(/P+/g, ' ')`: every maximal run of characters that satisfy p becomes a
      single space, every other character is kept. */
  function ReplaceRuns(s: string, p: char -> bool): (r: string)
    ensures |r| <= |s|
    ensures s != [] ==> r != [] && r[0] == (if p(s[0]) then ' ' else s[0])
    decreases |s|
  {
    if s == [] then []
    else if p(s[0]) then [' '] + ReplaceRuns(DropWhile(s[1..], p), p)
    else [s[0]] + ReplaceRuns(s[1..], p)
  }

  /** Every character of r that is in the class is a space. */
  predicate OnlySpaces(r: string, p: char -> bool) {
    forall i :: 0 <= i < |r| ==> r[i] == ' ' || !p(r[i])
  }

  /** No two adjacent characters of r are in the class. */
  predicate NoAdjacent(r: string, p: char -> bool) {
    forall i :: 0 <= i < |r| - 1 ==> !(p(r[i]) && p(r[i + 1]))
  }

  lemma ConsShape(c: char, t: string, p: char -> bool)
    requires OnlySpaces(t, p) && NoAdjacent(t, p)
    requires c == ' ' || !p(c)
    requires t != [] && p(t[0]) ==> !p(c)
    ensures OnlySpaces([c] + t, p) && NoAdjacent([c] + t, p)
  {
    var r := [c] + t;
    assert forall i :: 1 <= i < |r| ==> r[i] == t[i - 1];
  }

  /** After the replacement, a character in the class is a space, and no two
      characters of the class are adjacent. */
  lemma {:induction false} ReplaceRunsShape(s: string, p: char -> bool)
    ensures OnlySpaces(ReplaceRuns(s, p), p) && NoAdjacent(ReplaceRuns(s, p), p)
    decreases |s|
  {
    if s == [] {
    } else if p(s[0]) {
      var t := DropWhile(s[1..], p);
      ReplaceRunsShape(t, p);
      ConsShape(' ', ReplaceRuns(t, p), p);
    } else {
      ReplaceRunsShape(s[1..], p);
      ConsShape(s[0], ReplaceRuns(s[1..], p), p);
    }
  }

  /** s without its trailing white space. */
  function TrimEnd(s: string): (r: string)
    ensures |r| <= |s| && r == s[..|r|]
    ensures forall i :: |r| <= i < |s| ==> IsSpace(s[i])
    ensures r == [] || !IsSpace(r[|r| - 1])
  {
    if s == [] || !IsSpace(s[|s| - 1]) then s else TrimEnd(s[..|s| - 1])
  }

  /** `s.trim()`. */
  function Trim(s: string): (r: string)
    ensures |r| <= |s|
    ensures r != [] ==> !IsSpace(r[0]) && !IsSpace(r[|r| - 1])
  {
    var t := DropWhile(s, IsSpace);
    TrimEnd(t)
  }

  /** `s.replace(/\s+/g, ' ').trim()`: white space collapsed to single spaces and
      trimmed at both ends. */
  function CollapseTrim(s: string): (r: string)
    ensures |r| <= |s|
    ensures r != [] ==> !IsSpace(r[0]) && !IsSpace(r[|r| - 1])
  {
    Trim(ReplaceRuns(s, IsSpace))
  }

  /** The collapsed text has single spaces as its only white space, and never two
      in a row. */
  lemma CollapseTrimShape(s: string)
    ensures OnlySpaces(CollapseTrim(s), IsSpace) && NoAdjacent(CollapseTrim(s), IsSpace)
  {
    ReplaceRunsShape(s, IsSpace);
    TrimShape(ReplaceRuns(s, IsSpace));
  }

  /** Trimming keeps a collapsed text collapsed. */
  lemma TrimShape(c: string)
    requires OnlySpaces(c, IsSpace) && NoAdjacent(c, IsSpace)
    ensures OnlySpaces(Trim(c), IsSpace) && NoAdjacent(Trim(c), IsSpace)
  {
    var t := DropWhile(c, IsSpace);
    SuffixShape(c, |c| - |t|, IsSpace);
    PrefixShape(t, |TrimEnd(t)|, IsSpace);
  }

  lemma SuffixShape(c: string, i: nat, p: char -> bool)
    requires i <= |c|
    requires OnlySpaces(c, p) && NoAdjacent(c, p)
    ensures OnlySpaces(c[i..], p) && NoAdjacent(c[i..], p)
  {
    var t := c[i..];
    assert forall k :: 0 <= k < |t| ==> t[k] == c[i + k];
  }

  lemma PrefixShape(c: string, j: nat, p: char -> bool)
    requires j <= |c|
    requires OnlySpaces(c, p) && NoAdjacent(c, p)
    ensures OnlySpaces(c[..j], p) && NoAdjacent(c[..j], p)
  {
    var t := c[..j];
    assert forall k :: 0 <= k < |t| ==> t[k] == c[k];
  }

  lemma {:induction false} DropSpacesAfterNewlines(s: string)
    ensures DropWhile(DropWhile(s, IsNewline), IsSpace) == DropWhile(s, IsSpace)
    decreases |s|
  {
    if s != [] && IsNewline(s[0]) {
      DropSpacesAfterNewlines(s[1..]);
    }
  }

  /** Dropping leading white space commutes with collapsing newline runs. */
  lemma {:induction false} DropSpacesOfNewlineRuns(s: string)
    ensures DropWhile(ReplaceRuns(s, IsNewline), IsSpace) == ReplaceRuns(DropWhile(s, IsSpace), IsNewline)
    decreases |s|
  {
    if s != [] {
      var c, rest := s[0], s[1..];
      assert s == [c] + rest;
      ReplaceRunsCons(c, rest, IsNewline);
      DropCons(c, rest, IsSpace);
      if IsNewline(c) {
        var t := DropWhile(rest, IsNewline);
        DropCons(' ', ReplaceRuns(t, IsNewline), IsSpace);
        DropSpacesOfNewlineRuns(t);
        DropSpacesAfterNewlines(rest);
      } else {
        DropCons(c, ReplaceRuns(rest, IsNewline), IsSpace);
        if IsSpace(c) {
          DropSpacesOfNewlineRuns(rest);
        } else {
          ReplaceRunsCons(c, rest, IsNewline);
        }
      }
    }
  }

  lemma DropCons(c: char, t: string, p: char -> bool)
    ensures DropWhile([c] + t, p) == if p(c) then DropWhile(t, p) else [c] + t
  {
    assert ([c] + t)[0] == c && ([c] + t)[1..] == t;
  }

  /** Collapsing newline runs first, as the preview does with `/\n+/`, changes nothing
      once white-space runs are collapsed: every newline is white space. */
  lemma {:induction false} NewlinePassRedundant(s: string)
    ensures ReplaceRuns(ReplaceRuns(s, IsNewline), IsSpace) == ReplaceRuns(s, IsSpace)
    decreases |s|
  {
    if s == [] {
    } else if IsNewline(s[0]) {
      var t := DropWhile(s[1..], IsNewline);
      DropSpacesOfNewlineRuns(t);
      NewlinePassRedundant(DropWhile(t, IsSpace));
      DropSpacesAfterNewlines(s[1..]);
    } else if IsSpace(s[0]) {
      DropSpacesOfNewlineRuns(s[1..]);
      NewlinePassRedundant(DropWhile(s[1..], IsSpace));
    } else {
      NewlinePassRedundant(s[1..]);
    }
  }

  /** Cutting before a character outside the class does not change what is dropped. */
  lemma {:induction false} DropWhileAppend(a: string, b: string, p: char -> bool)
    requires b == [] || !p(b[0])
    ensures DropWhile(a + b, p) == DropWhile(a, p) + b
  {
    if a == [] {
      assert a + b == b;
    } else {
      assert (a + b)[0] == a[0];
      if p(a[0]) {
        assert (a + b)[1..] == a[1..] + b;
        assert DropWhile(a + b, p) == DropWhile(a[1..] + b, p);
        DropWhileAppend(a[1..], b, p);
      }
    }
  }

  lemma ReplaceRunsCons(c: char, t: string, p: char -> bool)
    ensures ReplaceRuns([c] + t, p) ==
      if p(c) then [' '] + ReplaceRuns(DropWhile(t, p), p) else [c] + ReplaceRuns(t, p)
  {
    assert ([c] + t)[1..] == t;
  }

  /** A run of the class cannot span a cut before a character outside it. */
  lemma {:induction false} ReplaceRunsAppend(a: string, b: string, p: char -> bool)
    requires b == [] || !p(b[0])
    ensures ReplaceRuns(a + b, p) == ReplaceRuns(a, p) + ReplaceRuns(b, p)
    decreases |a|
  {
    if a == [] {
      assert a + b == b;
    } else {
      var c, t := a[0], a[1..];
      assert a == [c] + t && a + b == [c] + (t + b);
      ReplaceRunsCons(c, t, p);
      ReplaceRunsCons(c, t + b, p);
      if p(c) {
        var d := DropWhile(t, p);
        DropWhileAppend(t, b, p);
        ReplaceRunsAppend(d, b, p);
        AppendStep(' ', ReplaceRuns(d + b, p), ReplaceRuns(d, p), ReplaceRuns(b, p));
      } else {
        ReplaceRunsAppend(t, b, p);
        AppendStep(c, ReplaceRuns(t + b, p), ReplaceRuns(t, p), ReplaceRuns(b, p));
      }
    }
  }

  lemma AppendAssoc<T>(x: seq<T>, y: seq<T>, z: seq<T>)
    ensures x + (y + z) == (x + y) + z
  {
  }

  lemma AppendStep(c: char, x: string, y: string, z: string)
    requires x == y + z
    ensures [c] + x == ([c] + y) + z
  {
  }

  /** Characters outside the class are copied. */
  lemma {:induction false} ReplaceRunsKeep(w: string, y: string, p: char -> bool)
    requires forall i :: 0 <= i < |w| ==> !p(w[i])
    ensures ReplaceRuns(w + y, p) == w + ReplaceRuns(y, p)
  {
    if w == [] {
      assert w + y == y;
    } else {
      assert (w + y)[1..] == w[1..] + y;
      ReplaceRunsKeep(w[1..], y, p);
    }
  }

  /** Trailing white space is trimmed only after the last other character. */
  lemma {:induction false} TrimEndKeeps(x: string, b: string)
    requires x != [] && !IsSpace(x[|x| - 1])
    ensures TrimEnd(x + b) == x + TrimEnd(b)
  {
    if b == [] {
      assert x + b == x;
    } else if IsSpace(b[|b| - 1]) {
      assert (x + b)[..|x + b| - 1] == x + b[..|b| - 1];
      TrimEndKeeps(x, b[..|b| - 1]);
    }
  }

  /** n occurs in h at position k. */
  predicate MatchAt(h: string, n: string, k: nat) {
    k + |n| <= |h| && h[k..k + |n|] == n
  }

  /** `h.indexOf(n)`: the first position at which n occurs in h, if any. */
  function IndexOf(h: string, n: string): (r: Option<nat>)
    ensures r.Some? ==> MatchAt(h, n, r.value) && forall k: nat :: k < r.value ==> !MatchAt(h, n, k)
    ensures r.None? ==> forall k: nat :: !MatchAt(h, n, k)
  {
    IndexFrom(h, n, 0)
  }

  function IndexFrom(h: string, n: string, i: nat): (r: Option<nat>)
    requires forall k: nat :: k < i ==> !MatchAt(h, n, k)
    ensures r.Some? ==> MatchAt(h, n, r.value) && forall k: nat :: k < r.value ==> !MatchAt(h, n, k)
    ensures r.None? ==> forall k: nat :: !MatchAt(h, n, k)
    decreases |h| - i
  {
    if i + |n| > |h| then None
    else if h[i..i + |n|] == n then Some(i)
    else IndexFrom(h, n, i + 1)
  }

  /** `h.includes(n)`. */
  predicate Contains(h: string, n: string) {
    IndexOf(h, n).Some?
  }

  lemma ContainsAt(h: string, n: string, k: nat)
    requires MatchAt(h, n, k)
    ensures Contains(h, n)
  {
  }

  /** An occurrence survives adding text on either side. */
  lemma ContainsWithin(pre: string, c: string, post: string, w: string)
    requires Contains(c, w)
    ensures Contains(pre + c + post, w)
  {
    var k := IndexOf(c, w).value;
    var r := pre + c + post;
    var j := |pre| + k;
    assert forall i :: 0 <= i < |w| ==> r[j + i] == c[k..k + |w|][i] == w[i];
    assert r[j..j + |w|] == w;
    ContainsAt(r, w, |pre| + k);
  }

  /** `s.startsWith(p)`. */
  predicate StartsWith(s: string, p: string) {
    |p| <= |s| && s[..|p|] == p
  }

  /** `s.endsWith(p)`. */
  predicate EndsWith(s: string, p: string) {
    |p| <= |s| && s[|s| - |p|..] == p
  }

  /** `s.replace(/a/g, b)` for a single character a. */
  function ReplaceChar(s: string, a: char, b: char): (r: string)
    ensures |r| == |s|
    ensures forall i :: 0 <= i < |s| ==> r[i] == if s[i] == a then b else s[i]
  {
    if s == [] then [] else [if s[0] == a then b else s[0]] + ReplaceChar(s[1..], a, b)
  }

  /** `s.replace(pat, rep)` with a string pattern: only the first occurrence is replaced. */
  function ReplaceFirst(s: string, pat: string, rep: string): (r: string)
    ensures IndexOf(s, pat).None? ==> r == s
    ensures IndexOf(s, pat).Some? ==>
      var k := IndexOf(s, pat).value; r == s[..k] + rep + s[k + |pat|..]
  {
    match IndexOf(s, pat)
    case None => s
    case Some(k) => s[..k] + rep + s[k + |pat|..]
  }

  /** `s.substring(0, n)` for n >= 0. */
  function Take(s: string, n: nat): (r: string)
    ensures |r| == if n <= |s| then n else |s|
    ensures r == s[..|r|]
  {
    if n <= |s| then s[..n] else s
  }

  /** `s.toLowerCase()`, as a case mapping applied to each character. */
  function Lower(s: string, lower: char -> char): (r: string)
    ensures |r| == |s|
    ensures forall i :: 0 <= i < |s| ==> r[i] == lower(s[i])
  {
    if s == [] then [] else [lower(s[0])] + Lower(s[1..], lower)
  }

  /** An occurrence survives lower-casing both strings. */
  lemma LowerKeepsMatch(h: string, n: string, k: nat, lower: char -> char)
    requires MatchAt(h, n, k)
    ensures MatchAt(Lower(h, lower), Lower(n, lower), k)
  {
    var lh, ln := Lower(h, lower), Lower(n, lower);
    assert forall i :: 0 <= i < |n| ==> lh[k + i] == lower(h[k + i]) && h[k + i] == n[i];
    assert lh[k..k + |n|] == ln;
  }

  /** `a < b` on strings: lexicographic order of characters, a proper prefix first. */
  predicate Less(a: string, b: string) {
    if a == [] then b != []
    else if b == [] then false
    else if a[0] != b[0] then a[0] < b[0]
    else Less(a[1..], b[1..])
  }

  lemma {:induction false} LessIrreflexive(a: string)
    ensures !Less(a, a)
  {
    if a != [] {
      LessIrreflexive(a[1..]);
    }
  }

  lemma {:induction false} LessTransitive(a: string, b: string, c: string)
    requires Less(a, b) && Less(b, c)
    ensures Less(a, c)
  {
    if a != [] && b != [] && c != [] && a[0] == b[0] && b[0] == c[0] {
      LessTransitive(a[1..], b[1..], c[1..]);
    }
  }

  lemma {:induction false} LessTotal(a: string, b: string)
    requires a != b
    ensures Less(a, b) || Less(b, a)
  {
    if a != [] && b != [] && a[0] == b[0] {
      assert a == [a[0]] + a[1..] && b == [b[0]] + b[1..];
      LessTotal(a[1..], b[1..]);
    }
  }
}
