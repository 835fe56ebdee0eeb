/** Object paths (core/naming/path.go, core/naming/kind.go, util/hostname/hostname.go) and their text. */
module Naming {
  import opened Text

  const ROOT := "root"
  const SVC := "svc"
  const CCFG := "ccfg"
  const NSCFG := "nscfg"

  predicate IsKind(s: string) {
    s == SVC || s == "vol" || s == "cfg" || s == "sec" || s == "usr" || s == CCFG || s == NSCFG
  }

  datatype Path = Path(name: string, namespace: string, kind: string)

  /** The configuration of the cluster. */
  const CLUSTER := Path("cluster", ROOT, CCFG)

  predicate IsUpper(c: char) {
    'A' <= c <= 'Z'
  }

  predicate IsAlnum(c: char) {
    'a' <= c <= 'z' || IsUpper(c) || IsDigit(c)
  }

  /** hostname.IsValid */
  predicate ValidHostname(s: string) {
    && 1 <= |s| <= 63
    && IsAlnum(s[0])
    && forall i :: 0 <= i < |s| ==> IsAlnum(s[i]) || s[i] == '.' || s[i] == '-'
  }

  /** A name without the slice number it may start with. */
  function Unsliced(name: string): string {
    if name != "" && (IsDigit(name[0]) || name[0] == '.') then Unsliced(name[1..]) else name
  }

  predicate Lowercase(s: string) {
    forall i :: 0 <= i < |s| ==> !IsUpper(s[i])
  }

  predicate Accepted(p: Path) {
    && IsKind(p.kind)
    && !(p.kind == SVC && p.namespace == ROOT && p.name == "namespace")
    && p.name != "" && ValidHostname(Unsliced(p.name)) && ValidHostname(p.namespace)
    && !IsKind(p.name) && p.name != "node"
  }

  /** The path of these elements, if they are valid. */
  function NewPath(namespace: string, kind: string, name: string): Option<Path> {
    if !Lowercase(name) || !Lowercase(namespace) then None
    else
      var k := if kind == "" then SVC else kind;
      var p := Path(if k == NSCFG then "namespace" else name, if namespace == "" then ROOT else namespace, k);
      if Accepted(p) then Some(p) else None
  }

  predicate WellFormed(p: Path) {
    NewPath(p.namespace, p.kind, p.name) == Some(p)
  }

  function Str(p: Path): string {
    if p.kind == "" then ""
    else if p.kind == NSCFG then (if p.namespace == ROOT then "/" else p.namespace + "/")
    else
      var ns := if p.namespace != "" && p.namespace != ROOT then p.namespace + "/" else "";
      var kind := if (p.kind != SVC && p.kind != CCFG) || ns != "" then p.kind + "/" else "";
      ns + kind + p.name
  }

  /** strings.Split around one character */
  function Split(s: string, c: char): (parts: seq<string>)
    ensures parts != []
    decreases |s|
  {
    var n := IndexOf(s, c);
    if n < |s| then [s[..n]] + Split(s[n + 1..], c) else [s]
  }

  /** The path of the parts of a text. */
  function PathOf(l: seq<string>): Option<Path> {
    if |l| == 3 then NewPath(l[0], l[1], l[2])
    else if |l| == 2 then
      if l[1] == "" then NewPath(l[0], NSCFG, "namespace") else NewPath(ROOT, l[0], l[1])
    else if |l| == 1 then NewPath(ROOT, if l[0] == "cluster" then CCFG else SVC, l[0])
    else NewPath("", "", "")
  }

  function ParsePath(s: string): Option<Path> {
    PathOf(Split(s, '/'))
  }

  // ---------------------------------------------------------------- well-formed paths

  /** A text of letters, digits, dots and dashes: no separator of any kind. */
  predicate Plain(s: string) {
    forall i :: 0 <= i < |s| ==> IsAlnum(s[i]) || s[i] == '.' || s[i] == '-'
  }

  lemma {:induction false} UnslicedIsPlain(name: string)
    ensures Plain(Unsliced(name)) <==> Plain(name)
  {
    if name != "" && (IsDigit(name[0]) || name[0] == '.') {
      UnslicedIsPlain(name[1..]);
      assert forall i :: 1 <= i < |name| ==> name[1..][i - 1] == name[i];
    }
  }

  // ---------------------------------------------------------------- the paths there are

  ghost predicate LowerAlnum(c: char) {
    c in "abcdefghijklmnopqrstuvwxyz" || c in "0123456789"
  }

  /** A host name with no capital: 1 to 63 letters, digits, dots and dashes, the first a letter or a digit. */
  ghost predicate LowerHost(s: string) {
    && 0 < |s| < 64 && LowerAlnum(s[0])
    && forall i :: 0 <= i < |s| ==> LowerAlnum(s[i]) || s[i] == '.' || s[i] == '-'
  }

  ghost predicate Slice(s: string) {
    forall i :: 0 <= i < |s| ==> s[i] == '.' || s[i] in "0123456789"
  }

  /** A name: a slice number or none, then a host name starting with a letter. */
  ghost predicate Sliced(name: string, slice: string, host: string) {
    name == slice + host && Slice(slice) && LowerHost(host) && host[0] in "abcdefghijklmnopqrstuvwxyz"
  }

  lemma Characters(c: char)
    ensures c in "0123456789" <==> IsDigit(c)
    ensures c in "abcdefghijklmnopqrstuvwxyz" <==> 'a' <= c <= 'z'
  {
    var digits, letters := "0123456789", "abcdefghijklmnopqrstuvwxyz";
    if IsDigit(c) { assert digits[c as int - '0' as int] == c; }
    if 'a' <= c <= 'z' { assert letters[c as int - 'a' as int] == c; }
  }

  lemma HostIs(s: string)
    ensures ValidHostname(s) && Lowercase(s) <==> LowerHost(s)
  {
    forall c: char ensures (c in "0123456789" <==> IsDigit(c)) &&
        (c in "abcdefghijklmnopqrstuvwxyz" <==> 'a' <= c <= 'z') {
      Characters(c);
    }
  }

  lemma {:induction false} UnslicedIs(slice: string, host: string)
    requires Slice(slice) && (host == "" || !(IsDigit(host[0]) || host[0] == '.'))
    ensures Unsliced(slice + host) == host
    decreases |slice|
  {
    if slice == "" {
      assert slice + host == host;
    } else {
      Characters(slice[0]);
      assert (slice + host)[1..] == slice[1..] + host;
      UnslicedIs(slice[1..], host);
    }
  }

  lemma {:induction false} SliceOf(name: string) returns (slice: string)
    ensures Slice(slice) && name == slice + Unsliced(name)
    ensures Unsliced(name) == "" || !(IsDigit(Unsliced(name)[0]) || Unsliced(name)[0] == '.')
    decreases |name|
  {
    if name != "" && (IsDigit(name[0]) || name[0] == '.') {
      Characters(name[0]);
      slice := SliceOf(name[1..]);
      slice := [name[0]] + slice;
    } else {
      slice := "";
    }
  }

  lemma NameIs(name: string)
    ensures Lowercase(name) && ValidHostname(Unsliced(name)) <==> exists slice, host :: Sliced(name, slice, host)
  {
    var s := SliceOf(name);
    var h := Unsliced(name);
    HostIs(h);
    assert Lowercase(name) <==> Lowercase(h) by { SliceIsLower(s, h); }
    if Lowercase(name) && ValidHostname(h) {
      Characters(h[0]);
      assert Sliced(name, s, h);
    }
    if slice, host :| Sliced(name, slice, host) {
      Characters(host[0]);
      UnslicedIs(slice, host);
    }
  }

  lemma SliceIsLower(slice: string, host: string)
    requires Slice(slice)
    ensures Lowercase(slice + host) <==> Lowercase(host)
  {
    var name := slice + host;
    assert forall i :: 0 <= i < |host| ==> name[|slice| + i] == host[i];
    forall i | 0 <= i < |slice| ensures !IsUpper(name[i]) { Characters(slice[i]); }
  }

  /** The elements of the path are those given, or what stands for one left out. */
  ghost predicate MadeOf(p: Path, namespace: string, kind: string, name: string) {
    && p.kind == (if kind == "" then "svc" else kind) && p.namespace == (if namespace == "" then "root" else namespace)
    && p.name == (if kind == "nscfg" then "namespace" else name)
  }

  /** Which elements make a path, and the path they make. */
  lemma NewPathExactly(namespace: string, kind: string, name: string, p: Path)
    ensures NewPath(namespace, kind, name) == Some(p) <==>
            && MadeOf(p, namespace, kind, name) && Lowercase(name)
            && p.kind in ["svc", "vol", "cfg", "sec", "usr", "ccfg", "nscfg"]
            && LowerHost(p.namespace) && (exists slice, host :: Sliced(p.name, slice, host))
            && p.name !in ["node", "svc", "vol", "cfg", "sec", "usr", "ccfg", "nscfg"]
            && p != Path("namespace", "root", "svc")
  {
    HostIs(p.namespace);
    NameIs(p.name);
    assert Lowercase(ROOT) && Lowercase("namespace") && Lowercase("");
    KindsAre(p.kind);
    KindsAre(p.name);
  }

  lemma KindsAre(s: string)
    ensures IsKind(s) <==> s in ["svc", "vol", "cfg", "sec", "usr", "ccfg", "nscfg"]
  {
    var kinds := ["svc", "vol", "cfg", "sec", "usr", "ccfg", "nscfg"];
    assert kinds[0] == "svc" && kinds[1] == "vol" && kinds[2] == "cfg" && kinds[3] == "sec";
    assert kinds[4] == "usr" && kinds[5] == "ccfg" && kinds[6] == "nscfg";
  }

  lemma AcceptedAgain(p: Path)
    requires Accepted(p) && Lowercase(p.name) && Lowercase(p.namespace) && (p.kind == NSCFG ==> p.name == "namespace")
    ensures WellFormed(p)
  {
    assert p.kind != "" && p.namespace != "";
  }

  /** Every path made is well formed. */
  lemma MadeIsWellFormed(namespace: string, kind: string, name: string)
    requires NewPath(namespace, kind, name).Some?
    ensures WellFormed(NewPath(namespace, kind, name).value)
  {
    var p := NewPath(namespace, kind, name).value;
    assert Lowercase(ROOT) && Lowercase("namespace");
    AcceptedAgain(p);
  }

  lemma WellFormedIsPlain(p: Path)
    requires WellFormed(p)
    ensures Plain(p.namespace) && Plain(p.kind) && Plain(p.name)
    ensures p.namespace != "" && p.kind != "" && p.name != ""
  {
    UnslicedIsPlain(p.name);
  }

  /** What separates the parts of the text of a path. */
  function Parts(p: Path): seq<string> {
    if p.kind == NSCFG then [if p.namespace == ROOT then "" else p.namespace, ""]
    else if p.namespace != ROOT then [p.namespace, p.kind, p.name]
    else if p.kind != SVC && p.kind != CCFG then [p.kind, p.name]
    else [p.name]
  }

  lemma PlainHasNot(s: string, c: char)
    requires Plain(s) && !IsAlnum(c) && c != '.' && c != '-'
    ensures !Has(s, c)
  {
  }

  lemma SplitHead(a: string, b: string)
    requires Plain(a)
    ensures Split(a + "/" + b, '/') == [a] + Split(b, '/')
  {
    PlainHasNot(a, '/');
    CutAt(a, '/', b);
  }

  lemma SplitLast(a: string)
    requires Plain(a)
    ensures Split(a, '/') == [a]
  {
    PlainHasNot(a, '/');
  }

  lemma SplitTwo(a: string, b: string)
    requires Plain(a) && Plain(b)
    ensures Split(a + "/" + b, '/') == [a, b]
  {
    SplitHead(a, b);
    SplitLast(b);
  }

  lemma SplitThree(a: string, b: string, c: string)
    requires Plain(a) && Plain(b) && Plain(c)
    ensures Split((a + "/") + (b + "/") + c, '/') == [a, b, c]
  {
    SplitTwo(b, c);
    var rest := b + "/" + c;
    SplitHead(a, rest);
    Regroup(a + "/", b + "/", c);
  }

  lemma ShowNscfg(p: Path)
    requires Plain(p.namespace) && p.kind == NSCFG
    ensures Split(Str(p), '/') == Parts(p)
  {
    var head := if p.namespace == ROOT then "" else p.namespace;
    SplitTwo(head, "");
    assert head + "/" + "" == Str(p);
  }

  lemma ShowRoot(p: Path)
    requires Plain(p.kind) && Plain(p.name) && p.namespace == ROOT && p.kind != "" && p.kind != NSCFG
    ensures Split(Str(p), '/') == Parts(p)
  {
    if p.kind == SVC || p.kind == CCFG {
      TextOfShort(p);
      SplitLast(p.name);
    } else {
      SplitTwo(p.kind, p.name);
      Regroup("", p.kind + "/", p.name);
      assert "" + (p.kind + "/" + p.name) == p.kind + "/" + p.name;
    }
  }

  lemma StrSplits(p: Path)
    requires WellFormed(p)
    ensures Split(Str(p), '/') == Parts(p)
  {
    WellFormedIsPlain(p);
    if p.kind == NSCFG {
      ShowNscfg(p);
    } else if p.namespace == ROOT {
      ShowRoot(p);
    } else {
      SplitThree(p.namespace, p.kind, p.name);
    }
  }

  /** Two paths with one text: a svc and a ccfg of the root namespace with one name. */
  predicate Twins(p: Path, q: Path) {
    p.namespace == q.namespace == ROOT && p.name == q.name && {p.kind, q.kind} == {SVC, CCFG}
  }

  /** The text of a path tells it from every other path but its twin. */
  lemma StrTells(p: Path, q: Path)
    requires WellFormed(p) && WellFormed(q)
    ensures Str(p) == Str(q) <==> p == q || Twins(p, q)
  {
    if Str(p) == Str(q) {
      StrSplits(p);
      StrSplits(q);
      PartsTell(p, q);
    }
  }

  lemma PartsTell(p: Path, q: Path)
    requires WellFormed(p) && WellFormed(q) && Parts(p) == Parts(q)
    ensures p == q || Twins(p, q)
  {
    var l, m := Parts(p), Parts(q);
    assert |l| == |m|;
    assert l[0] == m[0];
    if |l| > 1 { assert l[1] == m[1]; }
    if |l| > 2 { assert l[2] == m[2]; }
  }

  /** What the text of a path is read as. */
  function ReadAs(p: Path): Option<Path> {
    if p.namespace != ROOT || (p.kind != SVC && p.kind != CCFG) then Some(p)
    else if p.name == "cluster" then Some(CLUSTER)
    else if p.name == "namespace" then None
    else Some(p.(kind := SVC))
  }

  lemma ReadNscfg(p: Path)
    requires WellFormed(p) && p.kind == NSCFG
    ensures PathOf(Parts(p)) == Some(p)
  {
    assert Lowercase("namespace") && Lowercase("");
  }

  lemma ReadLong(p: Path)
    requires WellFormed(p) && p.kind != NSCFG && (p.namespace != ROOT || (p.kind != SVC && p.kind != CCFG))
    ensures PathOf(Parts(p)) == Some(p)
  {
    assert p.name != "";
  }

  lemma ReadShort(p: Path)
    requires WellFormed(p) && p.namespace == ROOT && (p.kind == SVC || p.kind == CCFG)
    ensures PathOf(Parts(p)) == ReadAs(p)
  {
    assert Parts(p) == [p.name];
    assert !IsKind("cluster");
  }

  lemma ParseOfStr(p: Path)
    requires WellFormed(p)
    ensures ParsePath(Str(p)) == ReadAs(p)
  {
    StrSplits(p);
    if p.kind == NSCFG {
      ReadNscfg(p);
    } else if p.namespace == ROOT && (p.kind == SVC || p.kind == CCFG) {
      ReadShort(p);
    } else {
      ReadLong(p);
    }
  }

  /** The svc named cluster, and the ccfg of any other name, of the root namespace: they are read as another path. */
  predicate Shadowed(p: Path) {
    p.namespace == ROOT && ((p.kind == SVC && p.name == "cluster") || (p.kind == CCFG && p.name != "cluster"))
  }

  /** A path is read back from its text, unless it is one of those. */
  lemma PathRoundTrip(p: Path)
    requires WellFormed(p)
    ensures ParsePath(Str(p)) == Some(p) <==> !Shadowed(p)
  {
    ParseOfStr(p);
  }

  lemma TextOfShort(p: Path)
    requires p.namespace == ROOT && (p.kind == SVC || p.kind == CCFG)
    ensures Str(p) == p.name
  {
    assert "" + "" + p.name == p.name;
  }

  /** The text of a path is that of the path it is read as, but for the ccfg named namespace, in the root namespace. */
  lemma TextRoundTrip(p: Path)
    requires WellFormed(p)
    ensures ParsePath(Str(p)).Some? && Str(ParsePath(Str(p)).value) == Str(p)
       <==> p != Path("namespace", ROOT, CCFG)
  {
    ParseOfStr(p);
    if p.namespace == ROOT && (p.kind == SVC || p.kind == CCFG) {
      assert Str(p) == p.name by { TextOfShort(p); }
      TextOfShort(CLUSTER);
      TextOfShort(p.(kind := SVC));
    }
  }

  /** A path read from any text is read back from its own under the same condition: what is read is well formed. */
  lemma ParsedRoundTrip(s: string)
    requires ParsePath(s).Some?
    ensures var p := ParsePath(s).value;
            ParsePath(Str(p)) == Some(p) <==> !Shadowed(p)
  {
    ReadIsWellFormed(Split(s, '/'));
    PathRoundTrip(ParsePath(s).value);
  }

  lemma ReadIsWellFormed(l: seq<string>)
    requires PathOf(l).Some?
    ensures WellFormed(PathOf(l).value)
  {
    if |l| == 3 {
      MadeIsWellFormed(l[0], l[1], l[2]);
    } else if |l| == 2 && l[1] == "" {
      MadeIsWellFormed(l[0], NSCFG, "namespace");
    } else if |l| == 2 {
      MadeIsWellFormed(ROOT, l[0], l[1]);
    } else if |l| == 1 {
      MadeIsWellFormed(ROOT, if l[0] == "cluster" then CCFG else SVC, l[0]);
    } else {
      MadeIsWellFormed("", "", "");
    }
  }
}
