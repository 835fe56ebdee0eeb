/** The exclude patterns of a backup (core/backup/exclude.go). */
module Exclude {
  import opened Glob
  import opened GlobMeaning
  import Text

  function TrimLeft(s: string): string {
    if s != "" && s[0] == '/' then TrimLeft(s[1..]) else s
  }

  function TrimRight(s: string): string {
    if s != "" && s[|s| - 1] == '/' then TrimRight(s[..|s| - 1]) else s
  }

  /** strings.Trim(s, "/") */
  function Trim(s: string): string {
    TrimRight(TrimLeft(s))
  }

  /** What follows the last slash. */
  function AfterSlash(s: string): string {
    if exists i :: 0 <= i < |s| && s[i] == '/' then AfterSlash(s[1..]) else s
  }

  /** path.Base */
  function Base(s: string): string {
    if s == "" then "."
    else
      var b := AfterSlash(TrimRight(s));
      if b == "" then "/" else b
  }

  /** The pattern without its leading and trailing slashes, and whether it matches from the head. */
  function SplitPattern(pattern: string): (string, bool) {
    var trimmed := Trim(pattern);
    (trimmed, (pattern != "" && pattern[0] == '/') || '/' in trimmed)
  }

  /** One pattern excludes the path. */
  predicate Excludes(pattern: string, rel: string) {
    var (p, anchored) := SplitPattern(pattern);
    p != "" && Match(p, if anchored then rel else Base(rel))
  }

  method Excluded(rel: string, excludes: seq<string>) returns (b: bool)
    ensures b <==> exists i :: 0 <= i < |excludes| && Excludes(excludes[i], rel)
  {
    for i := 0 to |excludes|
      invariant forall k :: 0 <= k < i ==> !Excludes(excludes[k], rel)
    {
      var (pattern, anchored) := SplitPattern(excludes[i]);
      if pattern == "" {
        continue;
      }
      var subject := rel;
      if !anchored {
        subject := Base(rel);
      }
      if Match(pattern, subject) {
        assert Excludes(excludes[i], rel);
        return true;
      }
    }
    return false;
  }

  // ---------------------------------------------------------------- what a pattern is matched with

  lemma {:induction false} LastPart(dir: string, name: string)
    requires Slashless(name)
    ensures AfterSlash(dir + "/" + name) == name
    decreases |dir|
  {
    var s := dir + "/" + name;
    assert s[|dir|] == '/';
    if dir == "" {
      assert s[1..] == name;
    } else {
      assert s[1..] == dir[1..] + "/" + name;
      LastPart(dir[1..], name);
    }
  }

  lemma BaseIsTheName(dir: string, name: string)
    requires name != "" && Slashless(name)
    ensures Base(name) == name && Base(dir + "/" + name) == name
  {
    var s := dir + "/" + name;
    assert s[|s| - 1] == name[|name| - 1];
    LastPart(dir, name);
  }

  lemma {:induction false} TrimRightSlashless(s: string)
    ensures Slashless(s) ==> Slashless(TrimRight(s))
  {
    if s != "" && s[|s| - 1] == '/' { TrimRightSlashless(s[..|s| - 1]); }
  }

  /** A pattern with no slash excludes a name at any depth, or at none. */
  lemma NameAtAnyDepth(pattern: string, dir: string, name: string)
    requires Slashless(pattern) && name != "" && Slashless(name)
    ensures Excludes(pattern, dir + "/" + name) <==> Excludes(pattern, name)
  {
    BaseIsTheName(dir, name);
    assert TrimLeft(pattern) == pattern;
    TrimRightSlashless(pattern);
  }

  predicate NoOuterSlash(s: string) {
    s == "" || (s[0] != '/' && s[|s| - 1] != '/')
  }

  predicate Slashes(s: string) {
    forall i :: 0 <= i < |s| ==> s[i] == '/'
  }

  lemma {:induction false} TrimLeftIs(lead: string, s: string)
    requires Slashes(lead) && (s == "" || s[0] != '/')
    ensures TrimLeft(lead + s) == s
    decreases |lead|
  {
    if lead == "" {
      assert lead + s == s;
    } else {
      assert (lead + s)[1..] == lead[1..] + s;
      TrimLeftIs(lead[1..], s);
    }
  }

  lemma {:induction false} TrimRightIs(s: string, tail: string)
    requires Slashes(tail) && (s == "" || s[|s| - 1] != '/')
    ensures TrimRight(s + tail) == s
    decreases |tail|
  {
    if tail == "" {
      assert s + tail == s;
    } else {
      var t, init := s + tail, tail[..|tail| - 1];
      assert t[|t| - 1] == '/' && t[..|t| - 1] == s + init;
      TrimRightIs(s, init);
    }
  }

  /** What is left of a pattern, and whether it matches from the head. */
  lemma SplitIs(lead: string, core: string, tail: string)
    requires Slashes(lead) && Slashes(tail) && core != "" && NoOuterSlash(core)
    ensures SplitPattern(lead + core + tail) == (core, lead != "" || !Slashless(core))
  {
    var pattern := lead + core + tail;
    assert pattern == lead + (core + tail) && (core + tail)[0] == core[0];
    TrimLeftIs(lead, core + tail);
    TrimRightIs(core, tail);
    assert pattern[0] == if lead == "" then core[0] else lead[0];
  }

  /** A pattern with no slash, but for some at its end: it excludes the names it means, at any depth or at none. */
  lemma NameMeans(core: string, tail: string, dir: string, name: string)
    requires core != "" && Slashless(core) && Slashes(tail) && name != "" && Slashless(name)
    ensures Excludes(core + tail, name) <==> Means(core, name)
    ensures Excludes(core + tail, dir + "/" + name) <==> Means(core, name)
  {
    SplitIs("", core, tail);
    assert "" + core + tail == core + tail;
    BaseIsTheName(dir, name);
    MatchMeans(core, name);
  }

  /** A pattern starting with a slash, or holding one: it excludes nothing but the whole paths it means, and all of them
   if no class between two stars can stand for a slash. */
  lemma PathMeans(lead: string, core: string, tail: string, rel: string)
    requires Slashes(lead) && Slashes(tail) && core != "" && NoOuterSlash(core) && (lead != "" || !Slashless(core))
    ensures Excludes(lead + core + tail, rel) ==> Means(core, rel)
    ensures SlashFree(core) || Slashless(rel) ==> (Excludes(lead + core + tail, rel) <==> Means(core, rel))
  {
    SplitIs(lead, core, tail);
    if Match(core, rel) { MatchIsMeant(core, rel); }
    if SlashFree(core) || Slashless(rel) { MatchMeans(core, rel); }
  }

  /** A pattern of slashes alone excludes nothing. */
  lemma SlashesExcludeNothing(pattern: string, rel: string)
    requires Slashes(pattern)
    ensures !Excludes(pattern, rel)
  {
    TrimLeftIs(pattern, "");
    assert pattern + "" == pattern;
  }

  predicate Special(c: char) {
    c == '\\' || c == '*' || c == '?' || c == '['
  }

  lemma {:induction false} PlainMeansItself(s: string, name: string)
    requires forall i :: 0 <= i < |s| ==> !Special(s[i])
    ensures Means(s, name) <==> name == s
    decreases |s|
  {
    if s != "" {
      MeansChar(s, name);
      assert s == [s[0]] + s[1..];
      if name != "" {
        assert name == [name[0]] + name[1..];
        PlainMeansItself(s[1..], name[1..]);
      }
    }
  }

  ghost predicate Literal(s: string) {
    forall i :: 0 <= i < |s| ==> !Special(s[i])
  }

  lemma AfterStar(ending: string, name: string, i: nat)
    requires Literal(ending) && After(ending, name, i)
    ensures EndsWith(name, ending)
  {
    PlainMeansItself(ending, name[i..]);
  }

  lemma StarThenEnding(p: string, ending: string, name: string)
    requires Literal(ending) && Slashless(name) && p != "" && p[0] == '*' && p[1..] == ending
    ensures Means(p, name) <==> EndsWith(name, ending)
  {
    MeansStar(p, name);
    if i: nat :| After(ending, name, i) { AfterStar(ending, name, i); }
    if EndsWith(name, ending) {
      PlainMeansItself(ending, ending);
      assert After(ending, name, |name| - |ending|);
    }
  }

  /** A star and an ending, as `*.log`: it excludes the names with that ending, at any depth or at none. */
  lemma EndingExcludes(ending: string, dir: string, name: string)
    requires Slashless(ending) && Literal(ending) && name != "" && Slashless(name)
    ensures Excludes("*" + ending, name) <==> EndsWith(name, ending)
    ensures Excludes("*" + ending, dir + "/" + name) <==> EndsWith(name, ending)
  {
    var p := "*" + ending;
    assert p[1..] == ending && p + "" == p && p[0] == '*';
    NameMeans(p, "", dir, name);
    StarThenEnding(p, ending, name);
  }

  // ---------------------------------------------------------------- literal patterns

  function EscapeChar(c: char): string {
    if Special(c) then ['\\', c] else [c]
  }

  function Escape(s: string): string {
    if s == "" then "" else Escape(s[..|s| - 1]) + EscapeChar(s[|s| - 1])
  }

  /** The pattern matching the path from the head, and nothing else. */
  method LiteralPattern(rel: string) returns (b: string)
    ensures b == "/" + Escape(rel)
  {
    b := "/";
    for i := 0 to |rel|
      invariant b == "/" + Escape(rel[..i])
    {
      assert rel[..i + 1][..i] == rel[..i];
      if Special(rel[i]) {
        b := b + "\\";
      }
      b := b + [rel[i]];
    }
    assert rel[..|rel|] == rel;
  }

  lemma {:induction false} EscapeHead(c: char, s: string)
    ensures Escape([c] + s) == EscapeChar(c) + Escape(s)
    decreases |s|
  {
    if s == "" {
      assert [c] + s == [c];
      assert [c][..0] == "";
      assert EscapeChar(c) + "" == EscapeChar(c) == "" + EscapeChar(c);
    } else {
      var t, head, last := [c] + s, s[..|s| - 1], s[|s| - 1];
      assert t[..|t| - 1] == [c] + head && t[|t| - 1] == last;
      EscapeHead(c, head);
      Text.Regroup(EscapeChar(c), Escape(head), EscapeChar(last));
    }
  }

  lemma EscapeSplit(s: string)
    requires s != ""
    ensures Escape(s) == EscapeChar(s[0]) + Escape(s[1..])
    ensures Escape(s) != "" && (Escape(s)[0] == '/' <==> s[0] == '/') && Escape(s)[0] != '*'
  {
    EscapeHead(s[0], s[1..]);
    assert s == [s[0]] + s[1..];
  }

  lemma {:induction false} TrimLeftOfEscape(s: string)
    ensures TrimLeft(Escape(s)) == Escape(TrimLeft(s))
  {
    if s == "" {
    } else {
      EscapeSplit(s);
      if s[0] == '/' {
        assert Escape(s)[1..] == Escape(s[1..]);
        TrimLeftOfEscape(s[1..]);
      }
    }
  }

  lemma {:induction false} TrimRightOfEscape(s: string)
    ensures TrimRight(Escape(s)) == Escape(TrimRight(s))
  {
    if s == "" {
    } else {
      var e := Escape(s);
      if s[|s| - 1] == '/' {
        assert e[..|e| - 1] == Escape(s[..|s| - 1]);
        TrimRightOfEscape(s[..|s| - 1]);
      }
    }
  }

  /** No star of an escaped path ends a chunk: the pattern is one chunk. */
  lemma {:induction false} EscapeIsOneChunk(s: string, inRange: bool)
    ensures ChunkLength(Escape(s), inRange) == |Escape(s)|
    decreases |s|
  {
    if s == "" {
    } else {
      EscapeSplit(s);
      var e := Escape(s);
      if Special(s[0]) {
        assert e[2..] == Escape(s[1..]);
        EscapeIsOneChunk(s[1..], inRange);
      } else {
        assert e[1..] == Escape(s[1..]);
        EscapeIsOneChunk(s[1..], if s[0] == ']' then false else inRange);
      }
    }
  }

  /** What an escaped character does to the name. */
  lemma EscapeStep(c: char, e: string, name: string, failed: bool)
    ensures var out := failed || name == "";
            MatchChunk(EscapeChar(c) + e, name, failed) == MatchChunk(e, if out then name else name[1..], out ||
                c != name[0])
  {
    var p := EscapeChar(c) + e;
    if Special(c) {
      assert p[0] == '\\' && p[1] == c && p[2..] == e;
    } else {
      assert p[0] == c && p[1..] == e;
    }
  }

  lemma PrefixStep(s: string, name: string)
    requires s != "" && name != ""
    ensures s <= name <==> s[0] == name[0] && s[1..] <= name[1..]
    ensures |s| <= |name| ==> name[1..][|s| - 1..] == name[|s|..]
  {
    if s[0] == name[0] && s[1..] <= name[1..] {
      assert s == [s[0]] + s[1..] && name == [name[0]] + name[1..];
    }
  }

  /** An escaped path matches itself at the start of a name, and nothing else. */
  lemma {:induction false} EscapeMatchesPrefix(s: string, name: string, failed: bool)
    ensures MatchChunk(Escape(s), name, failed) == if !failed && s <= name then Rest(name[|s|..]) else NoMatch
    decreases |s|
  {
    if s == "" {
      assert name[0..] == name;
    } else {
      EscapeSplit(s);
      EscapeStep(s[0], Escape(s[1..]), name, failed);
      if failed || name == "" {
        EscapeMatchesPrefix(s[1..], name, true);
      } else {
        PrefixStep(s, name);
        EscapeMatchesPrefix(s[1..], name[1..], s[0] != name[0]);
      }
    }
  }

  lemma EscapeMatchesItself(s: string, name: string)
    requires s != ""
    ensures Match(Escape(s), name) <==> name == s
  {
    var e := Escape(s);
    EscapeSplit(s);
    EscapeIsOneChunk(s, false);
    assert e[..|e|] == e && e[|e|..] == "";
    EscapeMatchesPrefix(s, name, false);
    assert s <= name && name[|s|..] == "" ==> name == s;
  }

  /** The literal pattern of a path excludes the path without its outer slashes, if anything is left, and no other. */
  lemma LiteralExcludesExactly(rel: string, other: string)
    ensures Excludes("/" + Escape(rel), other) <==> Trim(rel) != "" && other == Trim(rel)
  {
    var p := "/" + Escape(rel);
    assert p[1..] == Escape(rel);
    TrimLeftOfEscape(rel);
    TrimRightOfEscape(TrimLeft(rel));
    assert Trim(p) == Escape(Trim(rel));
    if Trim(rel) != "" {
      EscapeSplit(Trim(rel));
      EscapeMatchesItself(Trim(rel), other);
    }
  }

  lemma {:induction false} TrimRightKeeps(s: string)
    ensures TrimRight(s) == s <==> s == "" || s[|s| - 1] != '/'
    ensures |TrimRight(s)| <= |s|
  {
    if s != "" && s[|s| - 1] == '/' { TrimRightKeeps(s[..|s| - 1]); }
  }

  lemma {:induction false} TrimLeftKeeps(s: string)
    ensures TrimLeft(s) == s <==> s == "" || s[0] != '/'
    ensures |TrimLeft(s)| <= |s| && (TrimLeft(s) != s ==> |TrimLeft(s)| < |s|)
  {
    if s != "" && s[0] == '/' { TrimLeftKeeps(s[1..]); }
  }

  lemma TrimKeeps(s: string)
    ensures Trim(s) == s <==> NoOuterSlash(s)
  {
    TrimLeftKeeps(s);
    TrimRightKeeps(TrimLeft(s));
  }

  /** It excludes its own path exactly when the path is not empty and has no slash at its ends. */
  lemma LiteralExcludesItself(rel: string)
    ensures Excludes("/" + Escape(rel), rel) <==> rel != "" && NoOuterSlash(rel)
  {
    LiteralExcludesExactly(rel, rel);
    TrimKeeps(rel);
  }

  /** What the literal pattern of a path is for: it excludes that path, and no other. */
  ghost predicate ExcludesOnly(pattern: string, rel: string) {
    forall other :: Excludes(pattern, other) <==> other == rel
  }

  lemma LiteralIsLiteral(rel: string)
    ensures ExcludesOnly("/" + Escape(rel), rel) <==> rel != "" && NoOuterSlash(rel)
  {
    var p := "/" + Escape(rel);
    LiteralExcludesItself(rel);
    if rel != "" && NoOuterSlash(rel) {
      TrimKeeps(rel);
      forall other ensures Excludes(p, other) <==> other == rel {
        LiteralExcludesExactly(rel, other);
      }
    }
  }
}
