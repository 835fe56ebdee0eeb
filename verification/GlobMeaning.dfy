/**
 What a pattern of path.Match means: each star stands for some characters with no slash, a question mark for one, a
 class for one of its ranges. The matcher takes the first place a chunk fits after a star and never comes back to it,
 which is the same as long as no class between two stars can stand for a slash.
 */
module GlobMeaning {
  import opened Glob

  predicate Slashless(s: string) {
    forall i :: 0 <= i < |s| ==> s[i] != '/'
  }

  datatype ClassResult = NoClass | Class(ranges: seq<(char, char)>, rest: string)

  /** The ranges of a class, up to its closing bracket, and what follows it. */
  function ReadClass(q: string, some: bool): (r: ClassResult)
    ensures r.Class? ==> |r.rest| < |q|
    decreases |q|
  {
    if q != "" && q[0] == ']' && some then Class([], q[1..])
    else
      var (ok, lo, rest) := ClassChar(q);
      if !ok then NoClass
      else if rest[0] == '-' then
        var (okHi, hi, after) := ClassChar(rest[1..]);
        if !okHi then NoClass else AddRange(lo, hi, ReadClass(after, true))
      else AddRange(lo, lo, ReadClass(rest, true))
  }

  function AddRange(lo: char, hi: char, r: ClassResult): ClassResult {
    match r
    case NoClass => NoClass
    case Class(ranges, rest) => Class([(lo, hi)] + ranges, rest)
  }

  predicate InRanges(ranges: seq<(char, char)>, c: char) {
    exists k :: 0 <= k < |ranges| && ranges[k].0 <= c <= ranges[k].1
  }

  predicate Negated(p: string) {
    |p| > 1 && p[1] == '^'
  }

  /** What follows the opening bracket of a class, and its caret. */
  function Body(p: string): string
    requires p != ""
  {
    if Negated(p) then p[2..] else p[1..]
  }

  /** The whole name is what the pattern means. */
  ghost predicate Means(p: string, name: string)
    decreases |p|
  {
    if p == "" then name == ""
    else if p[0] == '*' then exists i :: 0 <= i <= |name| && Slashless(name[..i]) && Means(p[1..], name[i..])
    else if p[0] == '[' then
      match ReadClass(Body(p), false)
      case NoClass => false
      case Class(ranges, rest) => name != "" && InRanges(ranges, name[0]) != Negated(p) && Means(rest, name[1..])
    else if p[0] == '?' then name != "" && name[0] != '/' && Means(p[1..], name[1..])
    else if p[0] == '\\' then |p| > 1 && name != "" && name[0] == p[1] && Means(p[2..], name[1..])
    else name != "" && name[0] == p[0] && Means(p[1..], name[1..])
  }

  /** After `i` characters of the name, none a slash, the pattern means the rest of it. */
  ghost predicate After(p: string, name: string, i: nat) {
    i <= |name| && Slashless(name[..i]) && Means(p, name[i..])
  }

  // ---------------------------------------------------------------- classes

  lemma InRangesHead(lo: char, hi: char, ranges: seq<(char, char)>, c: char)
    ensures InRanges([(lo, hi)] + ranges, c) <==> lo <= c <= hi || InRanges(ranges, c)
  {
    var all := [(lo, hi)] + ranges;
    assert all[0] == (lo, hi) && forall k :: 0 <= k < |ranges| ==> all[k + 1] == ranges[k];
  }

  /** The matcher reads a class as it means. */
  lemma {:induction false} ClassIs(q: string, c: char, matched: bool, some: bool)
    ensures ClassRanges(q, c, matched, some) ==
            match ReadClass(q, some)
            case NoClass => BadRanges
            case Class(ranges, rest) => Ranges(matched || InRanges(ranges, c), rest)
    decreases |q|
  {
    if q != "" && q[0] == ']' && some {
    } else {
      var (ok, lo, rest) := ClassChar(q);
      if !ok {
      } else if rest[0] == '-' {
        var (okHi, hi, after) := ClassChar(rest[1..]);
        if okHi {
          ClassIs(after, c, matched || lo <= c <= hi, true);
          match ReadClass(after, true)
          case NoClass =>
          case Class(ranges, _) => InRangesHead(lo, hi, ranges, c);
        }
      } else {
        ClassIs(rest, c, matched || lo == c, true);
        match ReadClass(rest, true)
        case NoClass =>
        case Class(ranges, _) => InRangesHead(lo, lo, ranges, c);
      }
    }
  }

  /** How many characters of the pattern a character of a class takes. */
  function Taken(q: string): nat {
    if q != "" && q[0] == '\\' then 2 else 1
  }

  lemma ClassCharTakes(q: string)
    requires ClassChar(q).0
    ensures |q| > Taken(q) && ClassChar(q).2 == q[Taken(q)..] && q[0] != ']' && q[0] != '-'
    ensures ChunkLength(q, true) == Taken(q) + ChunkLength(q[Taken(q)..], true)
  {
  }

  lemma ClassCharExtends(a: string, b: string)
    requires ClassChar(a).0
    ensures ClassChar(a + b) == (true, ClassChar(a).1, ClassChar(a).2 + b)
  {
    var c := if a[0] == '\\' then a[1..] else a;
    assert (a + b)[0] == a[0] && (if a[0] == '\\' then (a + b)[1..] else a + b) == c + b;
    assert (c + b)[1..] == c[1..] + b;
  }

  lemma ClassCharCut(q: string, k: nat)
    requires ClassChar(q).0 && Taken(q) < k <= |q|
    ensures ClassChar(q[..k]) == (true, ClassChar(q).1, q[Taken(q)..k])
  {
    ClassCharTakes(q);
    assert q[..k][1..] == q[1..k];
    if q[0] == '\\' { assert q[1..k][1..] == q[2..k]; }
  }

  /** What a class is, step by step. */
  lemma ClassOne(q: string, some: bool)
    requires !(q != "" && q[0] == ']' && some) && ClassChar(q).0 && ClassChar(q).2[0] != '-'
    ensures ReadClass(q, some) == AddRange(ClassChar(q).1, ClassChar(q).1, ReadClass(ClassChar(q).2, true))
  {
  }

  lemma ClassTwo(q: string, some: bool)
    requires !(q != "" && q[0] == ']' && some) && ClassChar(q).0 && ClassChar(q).2[0] == '-'
    requires ClassChar(ClassChar(q).2[1..]).0
    ensures var hi := ClassChar(ClassChar(q).2[1..]);
            ReadClass(q, some) == AddRange(ClassChar(q).1, hi.1, ReadClass(hi.2, true))
  {
  }

  /** A class is the same whatever follows it. */
  lemma {:induction false} ClassExtends(a: string, b: string, some: bool)
    requires ReadClass(a, some).Class?
    ensures ReadClass(a + b, some) == Class(ReadClass(a, some).ranges, ReadClass(a, some).rest + b)
    decreases |a|
  {
    if a[0] == ']' && some {
      assert (a + b)[1..] == a[1..] + b;
    } else {
      ClassCharExtends(a, b);
      var r := ClassChar(a).2;
      assert (r + b)[0] == r[0];
      if r[0] == '-' {
        assert (r + b)[1..] == r[1..] + b;
        ClassCharExtends(r[1..], b);
        ClassTwo(a, some);
        ClassTwo(a + b, some);
        ClassExtends(ClassChar(r[1..]).2, b, true);
      } else {
        ClassOne(a, some);
        ClassOne(a + b, some);
        ClassExtends(r, b, true);
      }
    }
  }

  /** How long a class is, with its closing bracket. */
  function ClassSize(q: string, some: bool): nat
    requires ReadClass(q, some).Class?
  {
    |q| - |ReadClass(q, some).rest|
  }

  /** The text ends with the other one. */
  predicate EndsWith(q: string, r: string) {
    |r| <= |q| && q[|q| - |r|..] == r
  }

  lemma EndsWithOn(q: string, r: string, s: string)
    requires EndsWith(q, r) && EndsWith(r, s)
    ensures EndsWith(q, s)
  {
    assert r[|r| - |s|..] == q[|q| - |r|..][|r| - |s|..];
  }

  /** From `q` to the end `r` of it, the chunk goes on in a class. */
  predicate InClass(q: string, r: string) {
    EndsWith(q, r) && ChunkLength(q, true) + |r| == |q| + ChunkLength(r, true)
  }

  lemma InClassOn(q: string, r: string, s: string)
    requires InClass(q, r) && InClass(r, s)
    ensures InClass(q, s)
  {
    EndsWithOn(q, r, s);
  }

  lemma CharInClass(q: string)
    requires ClassChar(q).0
    ensures InClass(q, ClassChar(q).2)
  {
    ClassCharTakes(q);
  }

  lemma DashInClass(r: string)
    requires r != "" && r[0] == '-'
    ensures InClass(r, r[1..])
  {
  }

  /** The class ends where the chunk goes on out of it. */
  lemma {:induction false} ClassSpan(q: string, some: bool)
    requires ReadClass(q, some).Class?
    ensures EndsWith(q, ReadClass(q, some).rest)
    ensures ChunkLength(q, true) == ClassSize(q, some) + ChunkLength(ReadClass(q, some).rest, false)
    decreases |q|
  {
    if q[0] == ']' && some {
    } else {
      CharInClass(q);
      var r := ClassChar(q).2;
      var after := if r[0] == '-' then ClassChar(r[1..]).2 else r;
      if r[0] == '-' {
        ClassTwo(q, some);
        DashInClass(r);
        CharInClass(r[1..]);
        InClassOn(q, r, r[1..]);
        InClassOn(q, r[1..], after);
      } else {
        ClassOne(q, some);
      }
      ClassSpan(after, true);
      EndsWithOn(q, after, ReadClass(after, true).rest);
    }
  }

  lemma CutTwice(q: string, n: nat, k: nat)
    requires n <= k <= |q|
    ensures q[..k][n..] == q[n..][..k - n] == q[n..k]
  {
  }

  lemma AloneOne(q: string, some: bool, k: nat)
    requires ClassChar(q).0 && Taken(q) < k <= |q| && ClassChar(q).2[0] != '-' && q[0] != ']'
    ensures ReadClass(q[..k], some)
         == AddRange(ClassChar(q).1, ClassChar(q).1, ReadClass(ClassChar(q).2[..k - Taken(q)], true))
  {
    ClassCharTakes(q);
    ClassCharCut(q, k);
    CutTwice(q, Taken(q), k);
    ClassOne(q[..k], some);
  }

  lemma AloneTwo(q: string, some: bool, k: nat)
    requires ClassChar(q).0 && ClassChar(q).2[0] == '-' && ClassChar(ClassChar(q).2[1..]).0 && q[0] != ']'
    requires Taken(q) + 1 + Taken(ClassChar(q).2[1..]) < k <= |q|
    ensures var r := ClassChar(q).2;
            var hi := ClassChar(r[1..]);
            ReadClass(q[..k], some)
              == AddRange(ClassChar(q).1, hi.1, ReadClass(hi.2[..k - Taken(q) - 1 - Taken(r[1..])], true))
  {
    var r := ClassChar(q).2;
    var j := k - Taken(q);
    ClassCharTakes(q);
    ClassCharCut(q, k);
    CutTwice(q, Taken(q), k);
    assert ClassChar(q[..k]).2 == r[..j];
    CutTwice(r, 1, j);
    ClassCharTakes(r[1..]);
    ClassCharCut(r[1..], j - 1);
    CutTwice(r[1..], Taken(r[1..]), j - 1);
    ClassTwo(q[..k], some);
  }

  lemma SizeOne(q: string, some: bool)
    requires ReadClass(q, some).Class? && !(q[0] == ']' && some) && ClassChar(q).2[0] != '-'
    ensures ReadClass(ClassChar(q).2, true).Class?
    ensures ClassSize(q, some) == Taken(q) + ClassSize(ClassChar(q).2, true)
  {
    ClassOne(q, some);
    ClassCharTakes(q);
  }

  lemma SizeTwo(q: string, some: bool)
    requires ReadClass(q, some).Class? && !(q[0] == ']' && some) && ClassChar(q).2[0] == '-'
    ensures var r := ClassChar(q).2;
            && ClassChar(r[1..]).0 && ReadClass(ClassChar(r[1..]).2, true).Class?
            && ClassSize(q, some) == Taken(q) + 1 + Taken(r[1..]) + ClassSize(ClassChar(r[1..]).2, true)
  {
    ClassTwo(q, some);
    ClassCharTakes(q);
    ClassCharTakes(ClassChar(q).2[1..]);
  }

  /** The class is the same read alone. */
  ghost predicate Alone(q: string, some: bool)
    requires ReadClass(q, some).Class?
  {
    ReadClass(q[..ClassSize(q, some)], some) == Class(ReadClass(q, some).ranges, "")
  }

  lemma AloneAfterTwo(q: string, some: bool)
    requires ReadClass(q, some).Class? && q[0] != ']' && ClassChar(q).2[0] == '-'
    requires var hi := ClassChar(ClassChar(q).2[1..]); ReadClass(hi.2, true).Class? ==> Alone(hi.2, true)
    ensures Alone(q, some)
  {
    SizeTwo(q, some);
    ClassTwo(q, some);
    AloneTwo(q, some, ClassSize(q, some));
  }

  lemma AloneAfterOne(q: string, some: bool)
    requires ReadClass(q, some).Class? && q[0] != ']' && ClassChar(q).2[0] != '-'
    requires ReadClass(ClassChar(q).2, true).Class? ==> Alone(ClassChar(q).2, true)
    ensures Alone(q, some)
  {
    SizeOne(q, some);
    ClassOne(q, some);
    AloneOne(q, some, ClassSize(q, some));
  }

  /** A class read alone. */
  lemma {:induction false} ClassAlone(q: string, some: bool)
    requires ReadClass(q, some).Class?
    ensures Alone(q, some)
    decreases |q|
  {
    if q[0] == ']' && some {
      assert q[..1][1..] == "";
    } else if ClassChar(q).2[0] == '-' {
      SizeTwo(q, some);
      ClassAlone(ClassChar(ClassChar(q).2[1..]).2, true);
      AloneAfterTwo(q, some);
    } else {
      SizeOne(q, some);
      ClassAlone(ClassChar(q).2, true);
      AloneAfterOne(q, some);
    }
  }

  lemma CutJoin(q: string, n: nat, k: nat)
    requires n <= k <= |q|
    ensures q[..n] + q[n..k] == q[..k] && "" + q[n..k] == q[n..k]
  {
  }

  /** A class is the same read in the first `k` characters, if it ends there. */
  lemma ClassCut(q: string, some: bool, k: nat)
    requires ReadClass(q, some).Class? && ClassSize(q, some) <= k <= |q|
    ensures ReadClass(q[..k], some) == Class(ReadClass(q, some).ranges, q[ClassSize(q, some)..k])
  {
    var size := ClassSize(q, some);
    ClassAlone(q, some);
    ClassExtends(q[..size], q[size..k], some);
    CutJoin(q, size, k);
  }

  /** What is no class is none in its first `k` characters. */
  lemma NoClassCut(q: string, some: bool, k: nat)
    requires k <= |q| && ReadClass(q[..k], some).Class?
    ensures ReadClass(q, some).Class?
  {
    ClassExtends(q[..k], q[k..], some);
    assert q[..k] + q[k..] == q;
  }

  // ---------------------------------------------------------------- chunks

  /** A chunk that failed once leaves nothing. */
  lemma {:induction false} FailedIsNoRest(chunk: string, s: string)
    ensures !MatchChunk(chunk, s, true).Rest?
    decreases |chunk|
  {
    if chunk == "" {
    } else if chunk[0] == '[' {
      match ClassRanges(if Negated(chunk) then chunk[2..] else chunk[1..], '\0', false, false)
      case BadRanges =>
      case Ranges(_, after) => FailedIsNoRest(after, s);
    } else if chunk[0] == '\\' {
      if |chunk| > 1 { FailedIsNoRest(chunk[2..], s); }
    } else {
      FailedIsNoRest(chunk[1..], s);
    }
  }

  /** The pattern means the name when its first chunk takes the start of it, and the rest means the rest. */
  ghost predicate ChunkTakes(p: string, name: string, n: nat)
    requires n <= |p|
  {
    var r := MatchChunk(p[..n], name, false);
    r.Rest? && Means(p[n..], r.t)
  }

  lemma CharChunk(p: string, name: string, n: nat, k: nat)
    requires 0 < k <= n <= |p| && p[0] != '[' && p[0] != '*' && k == (if p[0] == '\\' then 2 else 1)
    ensures p[..n][k..] == p[k..][..n - k] && p[n..] == p[k..][n - k..] && p[..n] != "" && p[..n][0] == p[0]
    ensures k == 2 ==> p[..n][1] == p[1]
  {
  }

  /** One character of the pattern that is no class. */
  lemma ChunkStep(p: string, name: string, n: nat)
    requires p != "" && p[0] != '*' && p[0] != '[' && (p[0] == '\\' ==> |p| > 1)
    requires var k := if p[0] == '\\' then 2 else 1; k <= n <= |p|
    ensures var k := if p[0] == '\\' then 2 else 1;
            ChunkTakes(p, name, n) <==>
              && name != "" && (if p[0] == '?' then name[0] != '/' else name[0] == p[k - 1])
              && ChunkTakes(p[k..], name[1..], n - k)
  {
    var k := if p[0] == '\\' then 2 else 1;
    CharChunk(p, name, n, k);
    FailedIsNoRest(p[k..][..n - k], name);
    if name != "" { FailedIsNoRest(p[k..][..n - k], name[1..]); }
  }

  lemma BodyOfChunk(p: string, n: nat)
    requires p != "" && p[0] == '[' && n == ChunkLength(p, false)
    ensures 0 < n <= |p| && Negated(p[..n]) == Negated(p) && |p| - |Body(p)| <= n
    ensures Body(p[..n]) == Body(p)[..n - (|p| - |Body(p)|)]
    ensures n == |p| - |Body(p)| + ChunkLength(Body(p), true)
  {
    assert n == 1 + ChunkLength(p[1..], true);
    if Negated(p) {
      assert p[1..][0] == '^' && p[1..][1..] == p[2..];
      assert ChunkLength(p[1..], true) == 1 + ChunkLength(p[2..], true);
      CutTwice(p, 2, n);
    } else {
      CutTwice(p, 1, n);
    }
  }

  lemma ClassTail(p: string, rest: string, n: nat, m: nat)
    requires p != "" && EndsWith(Body(p), rest) && m <= |rest| && n == |p| - |rest| + m
    ensures EndsWith(p, rest) && p[n..] == rest[m..]
  {
    assert EndsWith(p, Body(p));
    EndsWithOn(p, Body(p), rest);
  }

  /** What a class at the start of a chunk does. */
  lemma ClassHead(chunk: string, name: string, matched: bool, after: string)
    requires chunk != "" && chunk[0] == '['
    requires ClassRanges(Body(chunk), if name == "" then '\0' else name[0], false, false) == Ranges(matched, after)
    ensures MatchChunk(chunk, name, false).Rest? <==>
            name != "" && matched != Negated(chunk) && MatchChunk(after, name[1..], false).Rest?
    ensures MatchChunk(chunk, name, false).Rest? ==>
            MatchChunk(chunk, name, false) == MatchChunk(after, name[1..], false)
  {
    FailedIsNoRest(after, name);
    if name != "" { FailedIsNoRest(after, name[1..]); }
  }

  lemma ClassRest(p: string, name: string, ranges: seq<(char, char)>, rest: string)
    requires p != "" && p[0] == '[' && EndsWith(Body(p), rest)
    requires var n := ChunkLength(p, false);
             && 0 < n && n == |p| - |rest| + ChunkLength(rest, false)
             && ClassRanges(Body(p[..n]), if name == "" then '\0' else name[0], false, false)
                == Ranges(InRanges(ranges, if name == "" then '\0' else name[0]), rest[..ChunkLength(rest, false)])
             && Negated(p[..n]) == Negated(p)
    ensures ChunkTakes(p, name, ChunkLength(p, false)) <==>
            && name != "" && InRanges(ranges, name[0]) != Negated(p)
            && ChunkTakes(rest, name[1..], ChunkLength(rest, false))
  {
    var n, m := ChunkLength(p, false), ChunkLength(rest, false);
    ClassTail(p, rest, n, m);
    ClassHead(p[..n], name, InRanges(ranges, if name == "" then '\0' else name[0]), rest[..m]);
  }

  /** What the matcher reads of a class of the pattern, which it reads in the chunk alone. */
  lemma ClassInChunk(p: string, c: char)
    requires p != "" && p[0] == '['
    ensures var n, r := ChunkLength(p, false), ReadClass(Body(p), false);
            && 0 < n && Negated(p[..n]) == Negated(p)
            && (r.NoClass? ==> ClassRanges(Body(p[..n]), c, false, false) == BadRanges)
            && (r.Class? ==>
                  && EndsWith(Body(p), r.rest) && n == |p| - |r.rest| + ChunkLength(r.rest, false)
                  && ClassRanges(Body(p[..n]), c, false, false)
                     == Ranges(InRanges(r.ranges, c), r.rest[..ChunkLength(r.rest, false)]))
  {
    var n, q := ChunkLength(p, false), Body(p);
    BodyOfChunk(p, n);
    var k := n - (|p| - |q|);
    ClassIs(q[..k], c, false, false);
    if ReadClass(q, false).Class? {
      ClassSpan(q, false);
      ClassCut(q, false, k);
      RestOfCut(q, ReadClass(q, false).rest, k);
    } else if ReadClass(q[..k], false).Class? {
      NoClassCut(q, false, k);
    }
  }

  lemma RestOfCut(q: string, rest: string, k: nat)
    requires EndsWith(q, rest) && |q| - |rest| <= k <= |q|
    ensures q[|q| - |rest|..k] == rest[..k - (|q| - |rest|)]
  {
  }

  lemma ClassStep(p: string, name: string)
    requires p != "" && p[0] == '['
    ensures ReadClass(Body(p), false).NoClass? ==> !ChunkTakes(p, name, ChunkLength(p, false))
    ensures var c := ReadClass(Body(p), false);
            c.Class? ==>
              (ChunkTakes(p, name, ChunkLength(p, false)) <==>
                 && name != "" && InRanges(c.ranges, name[0]) != Negated(p)
                 && ChunkTakes(c.rest, name[1..], ChunkLength(c.rest, false)))
  {
    ClassInChunk(p, if name == "" then '\0' else name[0]);
    var r := ReadClass(Body(p), false);
    if r.Class? {
      ClassRest(p, name, r.ranges, r.rest);
    } else {
      assert p[..ChunkLength(p, false)][0] == '[';
    }
  }

  lemma MeansClass(p: string, name: string)
    requires p != "" && p[0] == '['
    ensures ReadClass(Body(p), false).NoClass? ==> !Means(p, name)
    ensures var c := ReadClass(Body(p), false);
            c.Class? ==> (Means(p, name) <==>
                            name != "" && InRanges(c.ranges, name[0]) != Negated(p) && Means(c.rest, name[1..]))
  {
  }

  lemma MeansChar(p: string, name: string)
    requires p != "" && p[0] != '*' && p[0] != '[' && (p[0] == '\\' ==> |p| > 1)
    ensures var k := if p[0] == '\\' then 2 else 1;
            Means(p, name) <==>
              && name != "" && (if p[0] == '?' then name[0] != '/' else name[0] == p[k - 1])
              && Means(p[k..], name[1..])
  {
  }

  lemma NextChunk(p: string)
    requires p != "" && p[0] != '*' && p[0] != '[' && (p[0] == '\\' ==> |p| > 1)
    ensures var k := if p[0] == '\\' then 2 else 1; ChunkLength(p, false) == k + ChunkLength(p[k..], false)
  {
  }

  lemma ClassMeans(p: string, name: string)
    requires p != "" && p[0] == '['
    requires var c := ReadClass(Body(p), false);
             c.Class? && name != "" ==>
               (Means(c.rest, name[1..]) <==> ChunkTakes(c.rest, name[1..], ChunkLength(c.rest, false)))
    ensures Means(p, name) <==> ChunkTakes(p, name, ChunkLength(p, false))
  {
    ClassStep(p, name);
    MeansClass(p, name);
  }

  lemma CharMeans(p: string, name: string, k: nat)
    requires p != "" && p[0] != '*' && p[0] != '[' && (p[0] == '\\' ==> |p| > 1)
    requires k == if p[0] == '\\' then 2 else 1
    requires name != "" ==> (Means(p[k..], name[1..]) <==> ChunkTakes(p[k..], name[1..], ChunkLength(p[k..], false)))
    ensures Means(p, name) <==> ChunkTakes(p, name, ChunkLength(p, false))
  {
    NextChunk(p);
    ChunkStep(p, name, ChunkLength(p, false));
    MeansChar(p, name);
  }

  /** The first chunk of a pattern, then the rest of it. */
  lemma {:induction false} ChunkMeans(p: string, name: string)
    ensures Means(p, name) <==> ChunkTakes(p, name, ChunkLength(p, false))
    decreases |p|
  {
    if p == "" || p[0] == '*' {
      assert p[..0] == "" && p[0..] == p;
    } else if p[0] == '[' {
      var c := ReadClass(Body(p), false);
      if c.Class? && name != "" { ChunkMeans(c.rest, name[1..]); }
      ClassMeans(p, name);
    } else if p[0] == '\\' && |p| == 1 {
      assert p[..1] == p;
    } else {
      var k := if p[0] == '\\' then 2 else 1;
      if name != "" { ChunkMeans(p[k..], name[1..]); }
      CharMeans(p, name, k);
    }
  }

  // ---------------------------------------------------------------- what a chunk takes

  /** No class of the chunk can stand for a slash. */
  ghost predicate NoSlashClass(chunk: string)
    decreases |chunk|
  {
    if chunk == "" then true
    else if chunk[0] == '[' then
      match ReadClass(Body(chunk), false)
      case NoClass => true
      case Class(ranges, rest) => InRanges(ranges, '/') == Negated(chunk) && NoSlashClass(rest)
    else if chunk[0] == '\\' then |chunk| == 1 || NoSlashClass(chunk[2..])
    else NoSlashClass(chunk[1..])
  }

  /** Two texts start alike, as far as slashes go, for `w` characters. */
  ghost predicate SameSlashes(s: string, t: string, w: nat) {
    w <= |s| && w <= |t| && forall k :: 0 <= k < w ==> (s[k] == '/' <==> t[k] == '/')
  }

  lemma SameSlashesOn(s: string, t: string, w: nat)
    requires s != "" && t != "" && (s[0] == '/' <==> t[0] == '/') && SameSlashes(s[1..], t[1..], w)
    ensures SameSlashes(s, t, w + 1)
  {
    forall k | 0 <= k < w + 1 ensures s[k] == '/' <==> t[k] == '/' {
      if k > 0 { assert s[k] == s[1..][k - 1] && t[k] == t[1..][k - 1]; }
    }
  }

  /** What the first character of a chunk takes: a character of the name, and what is left of the chunk. */
  lemma ChunkHead(chunk: string, s: string) returns (rest: string)
    requires chunk != "" && MatchChunk(chunk, s, false).Rest?
    ensures |rest| < |chunk| && s != "" && MatchChunk(chunk, s, false) == MatchChunk(rest, s[1..], false)
    ensures chunk[0] == '[' ==> ReadClass(Body(chunk), false).Class? && rest == ReadClass(Body(chunk), false).rest
    ensures chunk[0] == '[' ==> InRanges(ReadClass(Body(chunk), false).ranges, s[0]) != Negated(chunk)
    ensures chunk[0] == '\\' ==> |chunk| > 1 && rest == chunk[2..] && s[0] == chunk[1]
    ensures chunk[0] != '[' && chunk[0] != '\\' ==> rest == chunk[1..]
    ensures chunk[0] == '?' ==> s[0] != '/'
    ensures chunk[0] != '[' && chunk[0] != '\\' && chunk[0] != '?' ==> s[0] == chunk[0]
  {
    var c := if s == "" then '\0' else s[0];
    if chunk[0] == '[' {
      ClassIs(Body(chunk), c, false, false);
      rest := ReadClass(Body(chunk), false).rest;
    } else {
      rest := if chunk[0] == '\\' then chunk[2..] else chunk[1..];
    }
    FailedIsNoRest(rest, s);
    if s != "" { FailedIsNoRest(rest, s[1..]); }
  }

  /** A chunk takes as many characters of any name, with the slashes at the same places, if no class can be a slash. */
  lemma {:induction false} ChunkTakesAlike(chunk: string, s: string, t: string)
    requires MatchChunk(chunk, s, false).Rest? && MatchChunk(chunk, t, false).Rest?
    ensures var x, y := MatchChunk(chunk, s, false).t, MatchChunk(chunk, t, false).t;
            && EndsWith(s, x) && EndsWith(t, y) && |s| - |x| == |t| - |y|
            && (NoSlashClass(chunk) ==> SameSlashes(s, t, |s| - |x|))
    decreases |chunk|
  {
    if chunk == "" {
    } else {
      var rest := ChunkHead(chunk, s);
      var same := ChunkHead(chunk, t);
      ChunkTakesAlike(rest, s[1..], t[1..]);
      var x, y := MatchChunk(chunk, s, false).t, MatchChunk(chunk, t, false).t;
      EndsWithTail(s, x);
      EndsWithTail(t, y);
      if NoSlashClass(chunk) {
        if chunk[0] == '[' {
          ClassNoSlash(chunk, s[0]);
          ClassNoSlash(chunk, t[0]);
        }
        SameSlashesOn(s, t, |s| - 1 - |x|);
      }
    }
  }

  lemma EndsWithTail(s: string, x: string)
    requires s != "" && EndsWith(s[1..], x)
    ensures EndsWith(s, x)
  {
    assert s[1..][|s| - 1 - |x|..] == s[|s| - |x|..];
  }

  lemma ClassNoSlash(chunk: string, c: char)
    requires chunk != "" && chunk[0] == '[' && NoSlashClass(chunk) && ReadClass(Body(chunk), false).Class?
    requires InRanges(ReadClass(Body(chunk), false).ranges, c) != Negated(chunk)
    ensures c != '/'
  {
  }

  /** Whether a chunk is malformed does not depend on the name. */
  lemma {:induction false} BadWhateverTheName(chunk: string, s: string, failed: bool, t: string, failedToo: bool)
    ensures MatchChunk(chunk, s, failed).BadPattern? <==> MatchChunk(chunk, t, failedToo).BadPattern?
    decreases |chunk|
  {
    if chunk == "" {
    } else {
      var out, outToo := failed || s == "", failedToo || t == "";
      var x, y := if out then s else s[1..], if outToo then t else t[1..];
      if chunk[0] == '[' {
        var c, d := if out then '\0' else s[0], if outToo then '\0' else t[0];
        ClassIs(Body(chunk), c, false, false);
        ClassIs(Body(chunk), d, false, false);
        var r := ReadClass(Body(chunk), false);
        if r.Class? {
          BadWhateverTheName(r.rest, x, out || InRanges(r.ranges, c) == Negated(chunk),
                             y, outToo || InRanges(r.ranges, d) == Negated(chunk));
        }
      } else if chunk[0] == '?' {
        BadWhateverTheName(chunk[1..], x, out || s[0] == '/', y, outToo || t[0] == '/');
      } else if chunk[0] == '\\' {
        if |chunk| > 1 {
          BadWhateverTheName(chunk[2..], x, out || chunk[1] != s[0], y, outToo || chunk[1] != t[0]);
        }
      } else {
        BadWhateverTheName(chunk[1..], x, out || chunk[0] != s[0], y, outToo || chunk[0] != t[0]);
      }
    }
  }

  // ---------------------------------------------------------------- stars

  /** After a star: the chunk takes what follows the first `i` characters of the name, and the rest means the rest. */
  ghost predicate FitsAt(chunk: string, rest: string, name: string, i: nat) {
    && i <= |name| && Slashless(name[..i])
    && MatchChunk(chunk, name[i..], false).Rest? && Means(rest, MatchChunk(chunk, name[i..], false).t)
  }

  lemma SlashlessJoin(a: string, b: string)
    ensures Slashless(a + b) <==> Slashless(a) && Slashless(b)
  {
    assert forall i :: 0 <= i < |a| ==> (a + b)[i] == a[i];
    assert forall i :: 0 <= i < |b| ==> (a + b)[|a| + i] == b[i];
  }

  /** Some more characters, none a slash, before the name. */
  lemma AfterMore(p: string, more: string, name: string, i: nat)
    requires Slashless(more) && After(p, name, i)
    ensures After(p, more + name, |more| + i)
  {
    var all, k := more + name, |more| + i;
    assert all[..k] == more + name[..i] && all[k..] == name[i..];
    SlashlessJoin(more, name[..i]);
  }

  lemma MeansStar(p: string, name: string)
    requires p != "" && p[0] == '*'
    ensures Means(p, name) <==> exists i: nat :: After(p[1..], name, i)
  {
    if Means(p, name) {
      var i :| 0 <= i <= |name| && Slashless(name[..i]) && Means(p[1..], name[i..]);
      assert After(p[1..], name, i);
    }
    if i: nat :| After(p[1..], name, i) { assert Slashless(name[..i]); }
  }

  /** A star takes some more characters that are no slash. */
  lemma StarTakesMore(p: string, more: string, name: string)
    requires p != "" && p[0] == '*' && Slashless(more) && Means(p, name)
    ensures Means(p, more + name)
  {
    MeansStar(p, name);
    MeansStar(p, more + name);
    var i: nat :| After(p[1..], name, i);
    AfterMore(p[1..], more, name, i);
  }

  lemma AfterNone(p: string, name: string)
    ensures After(p, name, 0) <==> Means(p, name)
  {
    assert name[0..] == name && name[..0] == "";
  }

  /** Two stars in a row are one star. */
  lemma TwoStars(p: string, name: string)
    requires |p| > 1 && p[0] == '*' && p[1] == '*'
    ensures Means(p, name) <==> Means(p[1..], name)
  {
    var q := p[1..];
    MeansStar(p, name);
    if Means(p, name) {
      var i: nat :| After(q, name, i);
      StarTakesMore(q, name[..i], name[i..]);
      assert name[..i] + name[i..] == name;
    }
    if Means(q, name) { AfterNone(q, name); }
  }

  lemma SkipOne(p: string)
    requires p != "" && p[0] == '*'
    ensures SkipStars(p) == SkipStars(p[1..])
    ensures |p| == 1 || p[1] != '*' ==> SkipStars(p) == p[1..]
  {
  }

  /** Stars in a row are one star. */
  lemma {:induction false} StarsAreOne(p: string, name: string)
    requires p != "" && p[0] == '*'
    ensures Means(p, name) <==> exists i: nat :: After(SkipStars(p), name, i)
    decreases |p|
  {
    SkipOne(p);
    if |p| > 1 && p[1] == '*' {
      TwoStars(p, name);
      StarsAreOne(p[1..], name);
    } else {
      MeansStar(p, name);
    }
  }

  lemma NoSlashAt(name: string, i: nat, j: nat, w: nat, x: nat)
    requires i < j <= |name| && j + w <= |name| && Slashless(name[..j]) && x < j - i
    requires SameSlashes(name[i..], name[j..], w)
    ensures name[i + w + x] != '/'
  {
    var y := i + w + x;
    if y < j { assert name[..j][y] == name[y]; } else { NoFirstSlash(name, i, j, w, y - j); }
  }

  lemma SameWithoutSlash(name: string, i: nat, j: nat, w: nat)
    requires Slashless(name) && i + w <= |name| && j + w <= |name|
    ensures SameSlashes(name[i..], name[j..], w)
  {
  }

  /** No slash is taken by the second place of a chunk after a star, past what the first place takes. */
  lemma NoSlashBetween(chunk: string, name: string, i: nat, j: nat, t: string, u: string)
    requires i < j <= |name| && Slashless(name[..j]) && (NoSlashClass(chunk) || Slashless(name))
    requires MatchChunk(chunk, name[i..], false) == Rest(t) && MatchChunk(chunk, name[j..], false) == Rest(u)
    ensures |u| <= |t| && EndsWith(t, u) && Slashless(t[..|t| - |u|])
  {
    var same := NoSlashClass(chunk);
    var x, y := name[i..], name[j..];
    ChunkTakesAlike(chunk, x, y);
    PlacesApart(name, t, u, i, j, same);
  }

  lemma PlacesApart(name: string, t: string, u: string, i: nat, j: nat, same: bool)
    requires i < j <= |name| && Slashless(name[..j]) && EndsWith(name[i..], t) && EndsWith(name[j..], u)
    requires |t| - |u| == j - i && (same || Slashless(name))
    requires same ==> SameSlashes(name[i..], name[j..], |name| - i - |t|)
    ensures EndsWith(t, u) && Slashless(t[..|t| - |u|])
  {
    var w := |name| - i - |t|;
    if !same { SameWithoutSlash(name, i, j, w); }
    EndsApart(name, t, u, i, j, w);
  }

  lemma EndsApart(name: string, t: string, u: string, i: nat, j: nat, w: nat)
    requires i < j <= |name| && Slashless(name[..j]) && j + w <= |name| && SameSlashes(name[i..], name[j..], w)
    requires EndsWith(name[i..], t) && EndsWith(name[j..], u) && |t| == |name| - i - w && |u| == |name| - j - w
    ensures |u| <= |t| && EndsWith(t, u) && Slashless(t[..|t| - |u|])
  {
    assert t == name[i + w..] && u == name[j + w..];
    assert t[j - i..] == u;
    var z := t[..|t| - |u|];
    forall x | 0 <= x < |z| ensures z[x] != '/' { NoSlashAt(name, i, j, w, x); }
  }

  lemma {:induction false} NoFirstSlash(name: string, i: nat, j: nat, w: nat, k: nat)
    requires i < j <= |name| && j + w <= |name| && Slashless(name[..j]) && k < w
    requires SameSlashes(name[i..], name[j..], w)
    ensures name[j + k] != '/'
    decreases k
  {
    assert name[i..][k] == name[i + k] && name[j..][k] == name[j + k];
    if i + k < j {
      assert name[..j][i + k] != '/';
    } else {
      NoFirstSlash(name, i, j, w, i + k - j);
    }
  }

  /** The first place a chunk fits after a star is as good as any later one. */
  lemma FirstPlaceIsBest(chunk: string, rest: string, name: string, i: nat, j: nat)
    requires i < j && FitsAt(chunk, rest, name, j) && MatchChunk(chunk, name[i..], false).Rest?
    requires rest != "" && rest[0] == '*' && (NoSlashClass(chunk) || Slashless(name))
    ensures FitsAt(chunk, rest, name, i)
  {
    var t, u := MatchChunk(chunk, name[i..], false).t, MatchChunk(chunk, name[j..], false).t;
    NoSlashBetween(chunk, name, i, j, t, u);
    assert t == t[..|t| - |u|] + u;
    StarTakesMore(rest, t[..|t| - |u|], u);
    assert forall x :: 0 <= x < i ==> name[..i][x] == name[..j][x];
  }

  // ---------------------------------------------------------------- the matcher

  /** No class of the pattern with a star before it and a star after it can stand for a slash. */
  ghost predicate SlashFree(p: string)
    decreases |p|
  {
    if p == "" then true
    else
      var q := SkipStars(p);
      var n := ChunkLength(q, false);
      (p[0] == '*' && q[n..] != "" ==> NoSlashClass(q[..n])) && SlashFree(q[n..])
  }

  lemma RestIsStar(q: string, n: nat)
    requires n == ChunkLength(q, false)
    ensures q[n..] == "" || q[n..][0] == '*'
    decreases |q|
  {
    ChunkStopsAtStar(q, false);
  }

  lemma {:induction false} ChunkStopsAtStar(q: string, inRange: bool)
    ensures var n := ChunkLength(q, inRange); q[n..] == "" || q[n..][0] == '*'
    decreases |q|
  {
    if q == "" {
    } else if q[0] == '\\' {
      if |q| > 1 {
        ChunkStopsAtStar(q[2..], inRange);
        assert q[2..][ChunkLength(q[2..], inRange)..] == q[2 + ChunkLength(q[2..], inRange)..];
      }
    } else if q[0] == '*' && !inRange {
    } else {
      var next := if q[0] == '[' then true else if q[0] == ']' then false else inRange;
      ChunkStopsAtStar(q[1..], next);
      assert q[1..][ChunkLength(q[1..], next)..] == q[1 + ChunkLength(q[1..], next)..];
    }
  }

  /** Where the matcher stops to look for a chunk. */
  ghost predicate Commits(chunk: string, rest: string, s: string) {
    var r := MatchChunk(chunk, s, false);
    r.Rest? && (r.t == "" || rest != "")
  }

  lemma NotCommitted(chunk: string, rest: string, name: string, i: nat)
    requires i <= |name| && !Commits(chunk, rest, name[i..])
    ensures !FitsAt(chunk, rest, name, i)
  {
  }

  /** A chunk that commits at the first place decides, whatever the later places. */
  lemma CommitDecides(chunk: string, rest: string, name: string, i: nat, j: nat)
    requires i <= |name| && Slashless(name[..i]) && (rest == "" || rest[0] == '*')
    requires NoSlashClass(chunk) || Slashless(name) || rest == ""
    requires Commits(chunk, rest, name[i..]) && i <= j && FitsAt(chunk, rest, name, j)
    ensures FitsAt(chunk, rest, name, i)
  {
    if i < j && rest != "" { FirstPlaceIsBest(chunk, rest, name, i, j); }
  }

  /** One character of the name further is one place further. */
  lemma FitsOneOn(chunk: string, rest: string, name: string, i: nat)
    requires name != "" && i < |name|
    ensures FitsAt(chunk, rest, name, i + 1) <==> name[0] != '/' && FitsAt(chunk, rest, name[1..], i)
  {
    assert name[1..][i..] == name[i + 1..] && name[..i + 1] == [name[0]] + name[1..][..i];
    SlashlessJoin([name[0]], name[1..][..i]);
    assert [name[0]][0] == name[0];
  }

  lemma {:induction false} AfterMeans(chunk: string, rest: string, name: string, size: nat)
    requires |rest| < size && (rest == "" || rest[0] == '*')
    requires Slashless(name) || ((rest == "" || NoSlashClass(chunk)) && SlashFree(rest))
    ensures MatchAfter(chunk, rest, name, size) <==> FitsLater(chunk, rest, name)
    decreases size, |name|
  {
    if name == "" || name[0] == '/' {
      forall i: nat | 1 <= i ensures !FitsAt(chunk, rest, name, i) {
        if i <= |name| { assert name[..i][0] == name[0]; }
      }
    } else {
      var s := name[1..];
      var r := MatchChunk(chunk, s, false);
      assert name[1..] == s && Slashless(name[..1]);
      RestSlashless(chunk, s);
      if Commits(chunk, rest, s) {
        MatchMeans(rest, r.t);
        if i: nat :| 1 <= i && FitsAt(chunk, rest, name, i) { CommitDecides(chunk, rest, name, 1, i); }
        if Means(rest, r.t) { LaterThere(chunk, rest, name, 1); }
      } else if r.BadPattern? {
        forall i: nat | 1 <= i <= |name| ensures !FitsAt(chunk, rest, name, i) {
          BadWhateverTheName(chunk, s, false, name[i..], false);
        }
      } else {
        AfterMeans(chunk, rest, s, size);
        NotCommitted(chunk, rest, name, 1);
        AfterOne(chunk, rest, name);
      }
    }
  }

  /** The chunk fits somewhere past the first place. */
  ghost predicate FitsLater(chunk: string, rest: string, name: string) {
    exists i: nat :: 1 <= i && FitsAt(chunk, rest, name, i)
  }

  lemma LaterThere(chunk: string, rest: string, name: string, i: nat)
    requires 1 <= i && FitsAt(chunk, rest, name, i)
    ensures FitsLater(chunk, rest, name)
  {
  }

  lemma LaterHere(chunk: string, rest: string, name: string, i: nat)
    requires name != "" && name[0] != '/' && 1 <= i && FitsAt(chunk, rest, name[1..], i)
    ensures FitsLater(chunk, rest, name)
  {
    FitsOneOn(chunk, rest, name, i);
    LaterThere(chunk, rest, name, i + 1);
  }

  lemma LaterOn(chunk: string, rest: string, name: string, i: nat)
    requires 1 < i && FitsAt(chunk, rest, name, i)
    ensures FitsLater(chunk, rest, name[1..])
  {
    FitsOneOn(chunk, rest, name, i - 1);
    LaterThere(chunk, rest, name[1..], i - 1);
  }

  lemma AfterOne(chunk: string, rest: string, name: string)
    requires name != "" && name[0] != '/' && !FitsAt(chunk, rest, name, 1)
    ensures FitsLater(chunk, rest, name) <==> FitsLater(chunk, rest, name[1..])
  {
    if FitsLater(chunk, rest, name) {
      var i: nat :| 1 <= i && FitsAt(chunk, rest, name, i);
      LaterOn(chunk, rest, name, i);
    }
    if FitsLater(chunk, rest, name[1..]) {
      var i: nat :| 1 <= i && FitsAt(chunk, rest, name[1..], i);
      LaterHere(chunk, rest, name, i);
    }
  }

  /** Whatever the classes, what the matcher finds past the first place is there. */
  lemma {:induction false} AfterIsMeant(chunk: string, rest: string, name: string, size: nat)
    requires |rest| < size && MatchAfter(chunk, rest, name, size)
    ensures FitsLater(chunk, rest, name)
    decreases size, |name|
  {
    var s := name[1..];
    if Commits(chunk, rest, s) {
      MatchIsMeant(rest, MatchChunk(chunk, s, false).t);
      assert Slashless(name[..1]);
      LaterThere(chunk, rest, name, 1);
    } else {
      AfterIsMeant(chunk, rest, s, size);
      var i: nat :| 1 <= i && FitsAt(chunk, rest, s, i);
      LaterHere(chunk, rest, name, i);
    }
  }

  /** Whatever the classes, what the matcher matches is what the pattern means. */
  lemma {:induction false} MatchIsMeant(p: string, name: string)
    requires Match(p, name)
    ensures Means(p, name)
    decreases |p|, |name| + 2
  {
    if p == "" {
    } else {
      var q := SkipStars(p);
      var n := ChunkLength(q, false);
      var chunk, rest := q[..n], q[n..];
      if p[0] != '*' {
        ChunkMeans(p, name);
        MatchIsMeant(rest, MatchChunk(chunk, name, false).t);
      } else if chunk == "" {
        RestIsStar(q, n);
        OnlyAStar(p, name);
      } else {
        StarIsMeant(p, name);
      }
    }
  }

  lemma StarIsMeant(p: string, name: string)
    requires p != "" && p[0] == '*' && SkipStars(p) != "" && Match(p, name)
    ensures Means(p, name)
    decreases |p|, |name| + 1
  {
    var q := SkipStars(p);
    var n := ChunkLength(q, false);
    var chunk, rest := q[..n], q[n..];
    StarIs(p, name);
    if Commits(chunk, rest, name) {
      MatchIsMeant(rest, MatchChunk(chunk, name, false).t);
      assert name[0..] == name && name[..0] == "";
      assert FitsAt(chunk, rest, name, 0);
    } else {
      AfterIsMeant(chunk, rest, name, |p|);
      var i: nat :| 1 <= i && FitsAt(chunk, rest, name, i);
    }
  }

  lemma AfterIsFit(q: string, name: string, i: nat)
    ensures var n := ChunkLength(q, false); After(q, name, i) <==> FitsAt(q[..n], q[n..], name, i)
  {
    if i <= |name| { ChunkMeans(q, name[i..]); }
  }

  lemma StarIs(p: string, name: string)
    requires p != "" && p[0] == '*'
    ensures var q := SkipStars(p);
            var n := ChunkLength(q, false);
            Means(p, name) <==> exists i: nat :: FitsAt(q[..n], q[n..], name, i)
  {
    var q := SkipStars(p);
    var n := ChunkLength(q, false);
    StarsAreOne(p, name);
    if i: nat :| After(q, name, i) {
      AfterIsFit(q, name, i);
      assert FitsAt(q[..n], q[n..], name, i);
    }
    if i: nat :| FitsAt(q[..n], q[n..], name, i) {
      AfterIsFit(q, name, i);
      assert After(q, name, i);
    }
  }

  lemma OnlyAStar(p: string, name: string)
    requires p != "" && p[0] == '*' && SkipStars(p) == ""
    ensures Means(p, name) <==> Slashless(name)
  {
    StarsAreOne(p, name);
    assert name[..|name|] == name && name[|name|..] == "";
    if Slashless(name) { assert After("", name, |name|); }
    if Means(p, name) {
      var i: nat :| After("", name, i);
      assert i == |name|;
    }
  }

  lemma RestSlashless(chunk: string, name: string)
    ensures Slashless(name) && MatchChunk(chunk, name, false).Rest? ==> Slashless(MatchChunk(chunk, name, false).t)
  {
    if MatchChunk(chunk, name, false).Rest? { ChunkTakesAlike(chunk, name, name); }
  }

  /** The matcher matches exactly what the pattern means, when no class between two stars can stand for a slash or the
   name has none. */
  lemma {:induction false} MatchMeans(p: string, name: string)
    requires SlashFree(p) || Slashless(name)
    ensures Match(p, name) <==> Means(p, name)
    decreases |p|, |name| + 2
  {
    if p == "" {
    } else {
      var q := SkipStars(p);
      var n := ChunkLength(q, false);
      var chunk, rest := q[..n], q[n..];
      RestIsStar(q, n);
      RestSlashless(chunk, name);
      if p[0] != '*' {
        ChunkMeans(p, name);
        if Commits(chunk, rest, name) { MatchMeans(rest, MatchChunk(chunk, name, false).t); }
      } else if chunk == "" {
        assert q == "";
        OnlyAStar(p, name);
      } else {
        StarMatches(p, name);
      }
    }
  }

  lemma StarMatches(p: string, name: string)
    requires p != "" && p[0] == '*' && (SlashFree(p) || Slashless(name)) && SkipStars(p) != ""
    ensures Match(p, name) <==> Means(p, name)
    decreases |p|, |name| + 1
  {
    var q := SkipStars(p);
    var n := ChunkLength(q, false);
    var chunk, rest := q[..n], q[n..];
    RestIsStar(q, n);
    StarIs(p, name);
    assert name[0..] == name && name[..0] == "";
    var r := MatchChunk(chunk, name, false);
    RestSlashless(chunk, name);
    if Commits(chunk, rest, name) {
      MatchMeans(rest, r.t);
      if i: nat :| FitsAt(chunk, rest, name, i) { CommitDecides(chunk, rest, name, 0, i); }
      assert Means(rest, r.t) ==> FitsAt(chunk, rest, name, 0);
    } else if r.BadPattern? {
      forall i: nat | i <= |name| ensures !FitsAt(chunk, rest, name, i) {
        BadWhateverTheName(chunk, name, false, name[i..], false);
      }
    } else {
      NotCommitted(chunk, rest, name, 0);
      AfterMeans(chunk, rest, name, |p|);
      if i: nat :| FitsAt(chunk, rest, name, i) { LaterThere(chunk, rest, name, i); }
      if FitsLater(chunk, rest, name) { var i: nat :| 1 <= i && FitsAt(chunk, rest, name, i); }
    }
  }

  /** A character of a pattern that stands for itself, and of a class. */
  predicate Plain(c: char) {
    c != '/' && c != '*' && c != '[' && c != ']' && c != '?' && c != '\\' && c != '-' && c != '^'
  }

  lemma CaretIsRead(q: string, z: char, rest: string)
    requires Plain(z) && q == [z, ']'] + rest
    ensures ReadClass(q, false) == Class([(z, z)], rest)
  {
    assert q[1..] == [']'] + rest && q[1..][1..] == rest;
    assert ReadClass(q[1..], true) == Class([], rest);
    assert [(z, z)] + [] == [(z, z)];
  }

  lemma PlainMeans(c: char, name: string)
    requires Plain(c)
    ensures Means([c], name) <==> name == [c]
  {
    MeansChar([c], name);
    assert [c][1..] == "";
  }

  lemma StarThenPlain(c: char, name: string)
    requires Plain(c)
    ensures Means(['*', c], name) <==> name != "" && name[|name| - 1] == c && Slashless(name[..|name| - 1])
  {
    var p := ['*', c];
    assert p[1..] == [c];
    MeansStar(p, name);
    if i: nat :| After([c], name, i) {
      PlainMeans(c, name[i..]);
      assert i == |name| - 1 && name[i] == name[i..][0];
    }
    if name != "" && name[|name| - 1] == c && Slashless(name[..|name| - 1]) {
      PlainMeans(c, name[|name| - 1..]);
      assert After([c], name, |name| - 1);
    }
  }

  lemma CaretMeans(q: string, z: char, c: char)
    requires Plain(z) && Plain(c) && q == ['[', '^', z, ']', '*', c]
    ensures Means(q, ['/', c])
  {
    assert Body(q) == [z, ']'] + ['*', c];
    CaretIsRead(Body(q), z, ['*', c]);
    assert ['/', c][1..] == [c];
    StarThenPlain(c, [c]);
    assert !InRanges([(z, z)], '/');
    MeansClass(q, ['/', c]);
  }

  lemma CaretLength(q: string, z: char, c: char)
    requires Plain(z) && q == ['[', '^', z, ']', '*', c]
    ensures ChunkLength(q, false) == 4
  {
    assert q[1..] == ['^', z, ']', '*', c] && q[1..][1..] == [z, ']', '*', c];
    assert [z, ']', '*', c][1..] == [']', '*', c] && [']', '*', c][1..] == ['*', c];
    assert ChunkLength([']', '*', c], true) == 1;
    assert ChunkLength([z, ']', '*', c], true) == 2;
  }

  lemma CaretTakes(chunk: string, z: char, a: char, rest: string)
    requires Plain(z) && a != z && chunk == ['[', '^', z, ']']
    ensures MatchChunk(chunk, [a] + rest, false) == Rest(rest)
  {
    assert Body(chunk) == [z, ']'] + "";
    CaretIsRead(Body(chunk), z, "");
    ClassIs(Body(chunk), a, false, false);
    assert !InRanges([(z, z)], a) && Negated(chunk) && ([a] + rest)[1..] == rest;
  }

  /** A class between two stars that can be a slash: the matcher takes the first place it fits, and never comes back. */
  lemma ClassHidesASlash(p: string, name: string, z: char, a: char, c: char)
    requires Plain(z) && Plain(c) && a != z && a != '/'
    requires p == ['*', '[', '^', z, ']', '*', c] && name == [a, '/', c]
    ensures !Match(p, name) && Means(p, name)
  {
    var q, rest, t := ['[', '^', z, ']', '*', c], ['*', c], ['/', c];
    assert p[1..] == q;
    CaretMeans(q, z, c);
    assert name[..1] == [a] && name[1..] == t;
    assert After(q, name, 1);
    MeansStar(p, name);
    SkipOne(p);
    CaretLength(q, z, c);
    assert q[..4] == ['[', '^', z, ']'] && q[4..] == rest && name == [a] + t;
    CaretTakes(q[..4], z, a, t);
    StarThenPlain(c, t);
    assert t[..1][0] == '/';
    if Match(rest, t) { MatchIsMeant(rest, t); }
  }
}
