/** Go's path.Match, which the exclude patterns of a backup rest on: wildcards, classes and escapes, chunk by chunk. */
module Glob {
  /** What is left of the name after a chunk, if it matches. */
  datatype ChunkResult = NoMatch | BadPattern | Rest(t: string)

  datatype RangesResult = BadRanges | Ranges(matched: bool, chunk: string)

  /** The length of the part of a pattern up to the next star out of a class. */
  function ChunkLength(p: string, inRange: bool): (n: nat)
    ensures n <= |p|
    ensures p != "" && p[0] != '*' ==> n > 0
  {
    if p == "" then 0
    else if p[0] == '\\' then (if |p| > 1 then 2 + ChunkLength(p[2..], inRange) else 1)
    else if p[0] == '[' then 1 + ChunkLength(p[1..], true)
    else if p[0] == ']' then 1 + ChunkLength(p[1..], false)
    else if p[0] == '*' && !inRange then 0
    else 1 + ChunkLength(p[1..], inRange)
  }

  function SkipStars(p: string): (r: string)
    ensures |r| <= |p|
    ensures r != "" ==> r[0] != '*'
    ensures p == "" || p[0] != '*' ==> r == p
    ensures p != "" && p[0] == '*' ==> |r| < |p|
  {
    if p != "" && p[0] == '*' then SkipStars(p[1..]) else p
  }

  /** The character a class starts with, escaped or not, and what follows it, if the class goes on. */
  function ClassChar(chunk: string): (r: (bool, char, string))
    ensures r.0 ==> |r.2| < |chunk| && r.2 != ""
  {
    if chunk == "" || chunk[0] == '-' || chunk[0] == ']' then (false, ' ', "")
    else
      var c := if chunk[0] == '\\' then chunk[1..] else chunk;
      if |c| < 2 then (false, ' ', "") else (true, c[0], c[1..])
  }

  /** The ranges of a class, up to its closing bracket. */
  function ClassRanges(chunk: string, c: char, matched: bool, some: bool): (r: RangesResult)
    ensures r.Ranges? ==> |r.chunk| <= |chunk|
    decreases |chunk|
  {
    if chunk != "" && chunk[0] == ']' && some then Ranges(matched, chunk[1..])
    else
      var (ok, lo, rest) := ClassChar(chunk);
      if !ok then BadRanges
      else if rest[0] == '-' then
        var (okHi, hi, after) := ClassChar(rest[1..]);
        if !okHi then BadRanges else ClassRanges(after, c, matched || lo <= c <= hi, true)
      else ClassRanges(rest, c, matched || lo == c, true)
  }

  /** Whether the name starts with what the chunk, which has no star, matches. A chunk is read whole even so. */
  function MatchChunk(chunk: string, s: string, failed: bool): ChunkResult
    decreases |chunk|
  {
    if chunk == "" then (if failed then NoMatch else Rest(s))
    else
      var out := failed || s == "";
      var rest := if out then s else s[1..];
      if chunk[0] == '[' then
        var negated := |chunk| > 1 && chunk[1] == '^';
        match ClassRanges(if negated then chunk[2..] else chunk[1..], if out then '\0' else s[0], false, false)
        case BadRanges => BadPattern
        case Ranges(matched, after) => MatchChunk(after, rest, out || matched == negated)
      else if chunk[0] == '?' then
        MatchChunk(chunk[1..], rest, out || s[0] == '/')
      else if chunk[0] == '\\' then
        if |chunk| == 1 then BadPattern else MatchChunk(chunk[2..], rest, out || chunk[1] != s[0])
      else
        MatchChunk(chunk[1..], rest, out || chunk[0] != s[0])
  }

  /** Whether the whole name matches, which is false of a bad pattern. */
  predicate Match(pattern: string, name: string)
    decreases |pattern|, |name| + 1
  {
    if pattern == "" then name == ""
    else
      var p := SkipStars(pattern);
      var star := |p| < |pattern|;
      var n := ChunkLength(p, false);
      var chunk, rest := p[..n], p[n..];
      if star && chunk == "" then forall i :: 0 <= i < |name| ==> name[i] != '/'
      else
        var r := MatchChunk(chunk, name, false);
        if r.Rest? && (r.t == "" || rest != "") then Match(rest, r.t)
        else if r.BadPattern? then false
        else star && MatchAfter(chunk, rest, name, |pattern|)
  }

  /** After a star: the chunk tried one character further, as long as no slash is skipped. */
  predicate MatchAfter(chunk: string, rest: string, name: string, size: nat)
    requires |rest| < size
    decreases size, |name|
  {
    if name == "" || name[0] == '/' then false
    else
      var r := MatchChunk(chunk, name[1..], false);
      if r.Rest? && (r.t == "" || rest != "") then Match(rest, r.t)
      else if r.BadPattern? then false
      else MatchAfter(chunk, rest, name[1..], size)
  }
}
