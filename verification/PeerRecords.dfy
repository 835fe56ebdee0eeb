/** The addresses the other nodes reported holding (core/ipam/peers.go), one file per address. */
module PeerRecords {
  import opened Text
  import opened Naming
  import opened Maps
  import Names
  import opened Address

  // ---------------------------------------------------------------- the text of a record

  function TrimSpaceLeft(s: string): string {
    if s != "" && IsSpace(s[0]) then TrimSpaceLeft(s[1..]) else s
  }

  function TrimSpaceRight(s: string): string {
    if s != "" && IsSpace(s[|s| - 1]) then TrimSpaceRight(s[..|s| - 1]) else s
  }

  /** strings.TrimSpace */
  function TrimSpace(s: string): string {
    TrimSpaceRight(TrimSpaceLeft(s))
  }

  function Line(node: string, key: string): string {
    node + " " + key + "\n"
  }

  /** The node and the key of a file, if it names them. */
  function ReadLine(s: string): Option<(string, string)> {
    Cut(TrimSpace(s), ' ')
  }

  /** A node and a key that a record holds as they are. */
  predicate Fits(node: string, key: string) {
    node != "" && !IsSpace(node[0]) && !Has(node, ' ') && key != "" && !IsSpace(key[|key| - 1])
  }

  lemma {:induction false} TrimSpaceEnds(s: string)
    ensures TrimSpace(s) != "" ==> !IsSpace(TrimSpace(s)[0]) && !IsSpace(TrimSpace(s)[|TrimSpace(s)| - 1])
  {
    TrimSpaceLeftEnds(s);
    TrimSpaceRightEnds(TrimSpaceLeft(s));
  }

  lemma {:induction false} TrimSpaceLeftEnds(s: string)
    ensures TrimSpaceLeft(s) != "" ==> !IsSpace(TrimSpaceLeft(s)[0])
  {
    if s != "" && IsSpace(s[0]) { TrimSpaceLeftEnds(s[1..]); }
  }

  lemma {:induction false} TrimSpaceRightEnds(s: string)
    ensures TrimSpaceRight(s) <= s
    ensures TrimSpaceRight(s) != "" ==> !IsSpace(TrimSpaceRight(s)[|TrimSpaceRight(s)| - 1])
  {
    if s != "" && IsSpace(s[|s| - 1]) { TrimSpaceRightEnds(s[..|s| - 1]); }
  }

  /** What a record reads as always fits. */
  lemma ReadFits(s: string)
    requires ReadLine(s).Some?
    ensures Fits(ReadLine(s).value.0, ReadLine(s).value.1)
  {
    TrimSpaceEnds(s);
    var t := TrimSpace(s);
    var n := IndexOf(t, ' ');
    assert t[n] == ' ';
    assert t[..n][0] == t[0];
    assert t[n + 1..][|t| - n - 2] == t[|t| - 1];
  }

  /** A record reads as the node and the key written exactly when they fit. */
  lemma LineRoundTrip(node: string, key: string)
    ensures ReadLine(Line(node, key)) == Some((node, key)) <==> Fits(node, key)
  {
    if ReadLine(Line(node, key)) == Some((node, key)) {
      ReadFits(Line(node, key));
    }
    if Fits(node, key) {
      var s, t := Line(node, key), node + " " + key;
      assert s[0] == node[0];
      assert s[..|s| - 1] == t && t[|t| - 1] == key[|key| - 1];
      assert s[|s| - 1] == '\n' && IsSpace('\n');
      assert TrimSpaceLeft(s) == s && TrimSpaceRight(s) == TrimSpaceRight(t) == t;
      CutAt(node, ' ', key);
    }
  }

  // ---------------------------------------------------------------- the object a key names

  /** The text of the path a key names, if it names one. */
  function NamedBy(key: string): Option<string> {
    match Cut(key, '!')
    case None => None
    case Some((s, _)) => match ParsePath(s) case None => None case Some(p) => Some(Str(p))
  }

  function Key(p: Path, rid: string): string {
    Str(p) + "!" + rid
  }

  /** The key of a resource names its object, but for the ccfg named namespace, in the root namespace. */
  lemma KeyNamesItsObject(p: Path, rid: string)
    requires WellFormed(p)
    ensures NamedBy(Key(p, rid)) == Some(Str(p)) <==> p != Path("namespace", ROOT, CCFG)
  {
    WellFormedIsPlain(p);
    PlainHasNot(p.namespace, '!');
    PlainHasNot(p.kind, '!');
    PlainHasNot(p.name, '!');
    assert !Has(Str(p), '!');
    CutAt(Str(p), '!', rid);
    TextRoundTrip(p);
  }

  // ---------------------------------------------------------------- the directory

  type Files = map<string, string>

  datatype Record = Record(ip: Addr, node: string, key: string)

  /** The names of the files, which are the text of addresses. */
  datatype FileNames = FileNames(text: Notation)
  {
    ghost predicate Valid() {
      text.Valid()
    }

    function Parse(name: string): Option<Addr> {
      text.Parse(name)
    }

    function Show(ip: Addr): string {
      text.show(ip)
    }

    /** The form addresses are written in of a text that is one. */
    function Target(addr: string): Option<string> {
      match Parse(addr) case None => None case Some(ip) => Some(Show(ip))
    }

    /** The text is an address, in the form addresses are written in. */
    predicate Named(name: string) {
      Target(name) == Some(name)
    }

    /** No file is named after an address in another form than the one addresses are written in. */
    ghost predicate Clean(files: Files) {
      forall name :: name in files && Parse(name).Some? ==> Named(name)
    }

    function RecordAt(files: Files, name: string): Option<(string, string)> {
      if name in files && Parse(name).Some? then ReadLine(files[name]) else None
    }

    /** The file records this key for the object on the node. */
    predicate Records(files: Files, name: string, node: string, path: string, key: string) {
      RecordAt(files, name) == Some((node, key)) && NamedBy(key) == Some(path)
    }

    predicate Mine(files: Files, node: string, path: string, name: string) {
      match RecordAt(files, name)
      case None => false
      case Some((n, key)) => n == node && NamedBy(key) == Some(path)
    }

    /** The record is what is reported of its address. */
    predicate Kept(files: Files, node: string, path: string, addrs: map<string, string>, name: string) {
      && Mine(files, node, path, name)
      && Target(name).value in addrs && addrs[Target(name).value] == RecordAt(files, name).value.1
    }

    ghost function MineAll(files: Files, node: string, path: string): set<string> {
      set name | name in files && Mine(files, node, path, name)
    }

    /** The addresses a record already says what is reported of. */
    ghost function KeptTexts(files: Files, node: string, path: string, addrs: map<string, string>): set<string> {
      set name | name in files && Kept(files, node, path, addrs, name) :: Target(name).value
    }

    /** Another record, in another form of the same address, says what is reported. */
    ghost predicate KeptTwice(files: Files, node: string, path: string, addrs: map<string, string>, name: string) {
      exists other :: other != name && Kept(files, node, path, addrs, other) && Target(other) == Target(name)
    }

    /** The names removed: of the records not reported any more, or saying what another one says. */
    ghost function Gone(files: Files, node: string, path: string, addrs: map<string, string>): set<string> {
      set name | name in files && Mine(files, node, path, name)
                 && (!Kept(files, node, path, addrs, name) || KeptTwice(files, node, path, addrs, name)) ::
                     Target(name).value
    }

    /** What is reported and not recorded yet. */
    ghost function Missing(files: Files, node: string, path: string, addrs: map<string, string>): map<string, string> {
      addrs - KeptTexts(files, node, path, addrs)
    }

    /** The texts that are addresses. */
    function Writes(addrs: set<string>): set<string> {
      set addr | addr in addrs && Parse(addr).Some?
    }

    /** The file has one of the pairs written in it, if one of them is of that address, or is as it was. */
    ghost predicate WrittenAt(before: Files, after: Files, node: string, addrs: map<string, string>, done: set<string>,
                              name: string)
      requires done <= addrs.Keys
    {
      if exists addr :: addr in done && Target(addr) == Some(name)
      then
        name in after
        && exists addr :: addr in done && Target(addr) == Some(name) && after[name] == Line(node, addrs[addr])
      else Same(before, after, name)
    }

    /** The pairs were written over the files, in some order. */
    ghost predicate Written(before: Files, after: Files, node: string, addrs: map<string, string>, done: set<string>)
      requires done <= addrs.Keys
    {
      forall name :: WrittenAt(before, after, node, addrs, done, name)
    }

    /** What a report leaves. */
    ghost predicate Reported(files: Files, after: Files, node: string, path: string, addrs: map<string, string>) {
      var missing := Missing(files, node, path, addrs);
      Written(files - Gone(files, node, path, addrs), after, node, missing, missing.Keys)
    }

    /** The files once the pairs are reported, for addresses in the form they are written in. */
    ghost function Set(files: Files, node: string, path: string, addrs: map<string, string>): Files {
      var missing := Missing(files, node, path, addrs);
      files - Gone(files, node, path, addrs) + map name | name in missing :: Line(node, missing[name])
    }

    /** The files of the records `keep` says no to. */
    ghost function Refused(files: Files, keep: Record -> bool): set<string> {
      set name | name in files && RecordAt(files, name).Some?
                 && !keep(Record(Parse(name).value, RecordAt(files, name).value.0, RecordAt(files, name).value.1))
    }

    /** The names in the form addresses are written in. */
    ghost function Targets(names: set<string>): set<string> {
      set name | name in names && Parse(name).Some? :: Target(name).value
    }
  }

  /** The file is the same, or missing in both. */
  predicate Same(before: Files, after: Files, name: string) {
    (name in before <==> name in after) && (name in before ==> before[name] == after[name])
  }

  /** The record is one of the object on the node. */
  predicate Listed(node: string, path: string, record: Record) {
    record.node == node && NamedBy(record.key) == Some(path)
  }

  predicate Unchanged(addrs: map<string, string>, name: string, key: string) {
    name in addrs && addrs[name] == key
  }

  function Put(t: FileNames, files: Files, addr: string, line: string): Files {
    match t.Target(addr) case None => files case Some(name) => files[name := line]
  }

  // ---------------------------------------------------------------- records listed in some order

  /** The texts chosen among the first `n`. */
  ghost function Chosen(texts: seq<string>, chosen: seq<bool>, n: nat): set<string>
    requires n <= |texts| == |chosen|
  {
    set k | 0 <= k < n && chosen[k] :: texts[k]
  }

  /** The texts removed among the first `n`: of the records of the object not the first kept of their address. */
  ghost function GoneUpTo(texts: seq<string>, mine: seq<bool>, kept: seq<bool>, n: nat): set<string>
    requires n <= |texts| == |mine| == |kept|
  {
    set k | 0 <= k < n && mine[k] && !(kept[k] && texts[k] !in Chosen(texts, kept, k)) :: texts[k]
  }

  ghost function CountUpTo(mine: seq<bool>, n: nat): nat
    requires n <= |mine|
  {
    if n == 0 then 0 else CountUpTo(mine, n - 1) + if mine[n - 1] then 1 else 0
  }

  lemma ChosenNext(texts: seq<string>, chosen: seq<bool>, n: nat)
    requires n < |texts| == |chosen|
    ensures Chosen(texts, chosen, n + 1) == Chosen(texts, chosen, n) + if chosen[n] then {texts[n]} else {}
  {
  }

  lemma GoneNext(texts: seq<string>, mine: seq<bool>, kept: seq<bool>, n: nat)
    requires n < |texts| == |mine| == |kept|
    ensures var removes := mine[n] && !(kept[n] && texts[n] !in Chosen(texts, kept, n));
            GoneUpTo(texts, mine, kept, n + 1) == GoneUpTo(texts, mine, kept, n) + if removes then {texts[n]} else {}
  {
  }

  /** Where the loop over the records is after the first `n`. */
  ghost predicate Progress(before: Files, files: Files, addrs: map<string, string>, left: map<string, string>,
                           removed: int,
                           texts: seq<string>, mine: seq<bool>, kept: seq<bool>, n: nat)
  {
    && n <= |texts| == |mine| == |kept|
    && files == before - GoneUpTo(texts, mine, kept, n)
    && left == addrs - Chosen(texts, kept, n)
    && removed == CountUpTo(mine, n) - |Chosen(texts, kept, n)|
  }

  lemma ProgressNext(before: Files, files: Files, addrs: map<string, string>, left: map<string, string>, removed: int,
                     texts: seq<string>, mine: seq<bool>, kept: seq<bool>, n: nat)
    requires Progress(before, files, addrs, left, removed, texts, mine, kept, n) && n < |texts| && (kept[n] ==> mine[n])
    ensures texts[n] in left <==> texts[n] in addrs && texts[n] !in Chosen(texts, kept, n)
    ensures !mine[n] ==> Progress(before, files, addrs, left, removed, texts, mine, kept, n + 1)
    ensures kept[n] && texts[n] !in Chosen(texts, kept, n) ==>
              Progress(before, files, addrs, left - {texts[n]}, removed, texts, mine, kept, n + 1)
    ensures mine[n] && !(kept[n] && texts[n] !in Chosen(texts, kept, n)) ==>
              Progress(before, files - {texts[n]}, addrs, left, removed + 1, texts, mine, kept, n + 1)
  {
    ChosenNext(texts, kept, n);
    GoneNext(texts, mine, kept, n);
    TakeOneMore(before, GoneUpTo(texts, mine, kept, n), texts[n]);
    TakeOneMore(addrs, Chosen(texts, kept, n), texts[n]);
    if kept[n] && texts[n] in Chosen(texts, kept, n) {
      assert Chosen(texts, kept, n + 1) == Chosen(texts, kept, n);
    }
  }

  class PeerDir {
    const t: FileNames
    var files: Files

    constructor (t: FileNames)
      ensures this.t == t && files == map[]
    {
      this.t := t;
      files := map[];
    }

    /** Every record, once, with the name of its file. */
    method ReadPeerRecords() returns (l: seq<Record>, ghost names: seq<string>)
      ensures |names| == |l| && Names.Distinct(names)
      ensures forall k :: 0 <= k < |l| ==> t.Parse(names[k]) == Some(l[k].ip)
      ensures forall k :: 0 <= k < |l| ==> t.RecordAt(files, names[k]) == Some((l[k].node, l[k].key))
      ensures forall name :: t.RecordAt(files, name).Some? ==> name in names
      ensures t.Clean(files) ==> forall k :: 0 <= k < |l| ==>
              t.RecordAt(files, t.Show(l[k].ip)) == Some((l[k].node, l[k].key))
    {
      l, names := [], [];
      var todo := files.Keys;
      while todo != {}
        invariant todo <= files.Keys && |names| == |l|
        invariant forall k :: 0 <= k < |l| ==> names[k] !in todo && t.Parse(names[k]) == Some(l[k].ip)
        invariant forall k :: 0 <= k < |l| ==> t.RecordAt(files, names[k]) == Some((l[k].node, l[k].key))
        invariant Names.Distinct(names)
        invariant forall name :: t.RecordAt(files, name).Some? ==> name in names || name in todo
        decreases |todo|
      {
        var name :| name in todo;
        todo := todo - {name};
        if t.Parse(name) == None {
          continue;
        }
        var record := ReadLine(files[name]);
        if record == None {
          continue;
        }
        l := l + [Record(t.Parse(name).value, record.value.0, record.value.1)];
        names := names + [name];
      }
    }

    /** The pairs left to write are what the caller is left with in its map. */
    method SetPeerRecords(node: string, path: string, addrs: map<string, string>)
      returns (written: nat, removed: nat, left: map<string, string>)
      modifies this
      ensures left == t.Missing(old(files), node, path, addrs) && written == |t.Writes(left.Keys)|
      ensures removed == |t.MineAll(old(files), node, path)| - |t.KeptTexts(old(files), node, path, addrs)|
      ensures t.Reported(old(files), files, node, path, addrs)
    {
      removed, left := RemoveGone(node, path, addrs);
      written := 0;
      if left != map[] {
        written := WriteAll(node, left);
      } else {
        assert t.Writes({}) == {};
      }
    }

    /** The records not reported any more are removed; the pairs not recorded yet are left. */
    method RemoveGone(node: string, path: string, addrs: map<string, string>)
      returns (removed: nat, left: map<string, string>)
      modifies this
      ensures files == old(files) - t.Gone(old(files), node, path, addrs)
      ensures left == t.Missing(old(files), node, path, addrs)
      ensures removed == |t.MineAll(old(files), node, path)| - |t.KeptTexts(old(files), node, path, addrs)|
    {
      var records;
      ghost var names;
      records, names := ReadPeerRecords();
      removed, left := RemoveListed(node, path, addrs, records);
      ListedIsGone(t, old(files), node, path, addrs, records, names);
    }

    method RemoveListed(node: string, path: string, addrs: map<string, string>, records: seq<Record>)
      returns (removed: nat, left: map<string, string>)
      modifies this
      ensures var texts, mine, kept := Texts(t, records), AreListed(node, path, records),
              AreKept(t, node, path, addrs, records);
              Progress(old(files), files, addrs, left, removed, texts, mine, kept, |records|)
    {
      removed, left := 0, addrs;
      ghost var before := files;
      ghost var texts, mine, kept := Texts(t, records), AreListed(node, path, records),
          AreKept(t, node, path, addrs, records);
      for i := 0 to |records|
        invariant Progress(before, files, addrs, left, removed, texts, mine, kept, i)
      {
        var record := records[i];
        ProgressNext(before, files, addrs, left, removed, texts, mine, kept, i);
        if record.node != node || NamedBy(record.key) != Some(path) {
          continue;
        }
        var s := t.Show(record.ip);
        if s in left && left[s] == record.key {
          left := left - {s};
          continue;
        }
        files := files - {s};
        removed := removed + 1;
      }
    }

    /** One pair is written, unless it has no address. */
    method Write(node: string, addr: string, key: string) returns (written: bool)
      modifies this
      ensures written <==> t.Parse(addr).Some?
      ensures files == Put(t, old(files), addr, Line(node, key))
    {
      var ip := t.Parse(addr);
      if ip == None {
        return false;
      }
      files := files[t.Show(ip.value) := Line(node, key)];
      return true;
    }

    /** The pairs are written in some order, the ones that are no address skipped. */
    method WriteAll(node: string, addrs: map<string, string>) returns (written: nat)
      modifies this
      ensures written == |t.Writes(addrs.Keys)|
      ensures t.Written(old(files), files, node, addrs, addrs.Keys)
    {
      written := 0;
      var todo := addrs.Keys;
      ghost var before, done: set<string> := files, {};
      while todo != {}
        invariant done + todo == addrs.Keys && done !! todo
        invariant written == |t.Writes(done)|
        invariant t.Written(before, files, node, addrs, done)
        decreases |todo|
      {
        var addr :| addr in todo;
        todo := todo - {addr};
        WrittenOneMore(t, before, files, node, addrs, done, addr);
        WritesOneMore(t, done, addr);
        done := done + {addr};
        var ok := Write(node, addr, addrs[addr]);
        if ok {
          written := written + 1;
        }
      }
      assert done == addrs.Keys;
    }

    method DropPeerRecords(keep: Record -> bool) returns (n: nat)
      modifies this
      ensures files == old(files) - t.Targets(t.Refused(old(files), keep)) && n == |t.Refused(old(files), keep)|
    {
      var records;
      ghost var names;
      records, names := ReadPeerRecords();
      n := DropListed(keep, records);
      RefusedIsGone(t, old(files), keep, records, names);
    }

    method DropListed(keep: Record -> bool, records: seq<Record>) returns (n: nat)
      modifies this
      ensures files == old(files) - Chosen(Texts(t, records), AreRefused(keep, records), |records|)
      ensures n == CountUpTo(AreRefused(keep, records), |records|)
    {
      ghost var before := files;
      ghost var texts, refused := Texts(t, records), AreRefused(keep, records);
      n := 0;
      for i := 0 to |records|
        invariant files == before - Chosen(texts, refused, i) && n == CountUpTo(refused, i)
      {
        ChosenNext(texts, refused, i);
        TakeOneMore(before, Chosen(texts, refused, i), texts[i]);
        if keep(records[i]) {
          continue;
        }
        files := files - {t.Show(records[i].ip)};
        n := n + 1;
      }
    }
  }

  // ---------------------------------------------------------------- the records listed are those of the directory

  ghost function Texts(t: FileNames, records: seq<Record>): (r: seq<string>)
    ensures |r| == |records| && forall k :: 0 <= k < |r| ==> r[k] == t.Show(records[k].ip)
  {
    seq(|records|, k requires 0 <= k < |records| => t.Show(records[k].ip))
  }

  ghost function AreListed(node: string, path: string, records: seq<Record>): (r: seq<bool>)
    ensures |r| == |records| && forall k :: 0 <= k < |r| ==> r[k] == Listed(node, path, records[k])
  {
    seq(|records|, k requires 0 <= k < |records| => Listed(node, path, records[k]))
  }

  ghost function AreKept(t: FileNames, node: string, path: string, addrs: map<string, string>,
                         records: seq<Record>): (r: seq<bool>)
    ensures |r| == |records|
    ensures forall k :: 0 <= k < |r| ==>
            r[k] == (Listed(node, path, records[k]) && Unchanged(addrs, t.Show(records[k].ip), records[k].key))
  {
    seq(|records|, k requires 0 <= k < |records| =>
      Listed(node, path, records[k]) && Unchanged(addrs, t.Show(records[k].ip), records[k].key))
  }

  ghost function AreRefused(keep: Record -> bool, records: seq<Record>): (r: seq<bool>)
    ensures |r| == |records| && forall k :: 0 <= k < |r| ==> r[k] == !keep(records[k])
  {
    seq(|records|, k requires 0 <= k < |records| => !keep(records[k]))
  }

  /** The records of the directory, each once, with the name of its file. */
  ghost predicate Lists(t: FileNames, files: Files, records: seq<Record>, names: seq<string>) {
    && |names| == |records| && Names.Distinct(names)
    && (forall k :: 0 <= k < |records| ==> t.Parse(names[k]) == Some(records[k].ip))
    && (forall k :: 0 <= k < |records| ==> t.RecordAt(files, names[k]) == Some((records[k].node, records[k].key)))
    && (forall name :: t.RecordAt(files, name).Some? ==> name in names)
  }

  /** What is said of a record listed is said of its file. */
  ghost predicate Says(t: FileNames, files: Files, node: string, path: string, addrs: map<string, string>,
                       names: seq<string>,
                       texts: seq<string>, mine: seq<bool>, kept: seq<bool>)
  {
    && |names| == |texts| == |mine| == |kept| && Names.Distinct(names)
    && (forall k :: 0 <= k < |names| ==> names[k] in files && t.Target(names[k]) == Some(texts[k]))
    && (forall k :: 0 <= k < |names| ==> mine[k] == t.Mine(files, node, path, names[k]))
    && (forall k :: 0 <= k < |names| ==> kept[k] == t.Kept(files, node, path, addrs, names[k]))
    && (forall name :: t.Mine(files, node, path, name) ==> name in names)
  }

  lemma ListsSays(t: FileNames, files: Files, node: string, path: string, addrs: map<string, string>,
                  records: seq<Record>, names: seq<string>)
    requires Lists(t, files, records, names)
    ensures Says(t, files, node, path, addrs, names, Texts(t, records), AreListed(node, path, records),
            AreKept(t, node, path, addrs, records))
  {
  }

  lemma KeptIs(t: FileNames, files: Files, node: string, path: string, addrs: map<string, string>, names: seq<string>,
               texts: seq<string>, mine: seq<bool>, kept: seq<bool>)
    requires Says(t, files, node, path, addrs, names, texts, mine, kept)
    ensures Chosen(texts, kept, |names|) == t.KeptTexts(files, node, path, addrs)
  {
    forall c | c in t.KeptTexts(files, node, path, addrs) ensures c in Chosen(texts, kept, |names|) {
      var name :| name in files && t.Kept(files, node, path, addrs, name) && t.Target(name).value == c;
      var k :| 0 <= k < |names| && names[k] == name;
      assert kept[k] && texts[k] == c;
    }
  }

  lemma GoneIsListed(t: FileNames, files: Files, node: string, path: string, addrs: map<string, string>,
                     names: seq<string>,
                     texts: seq<string>, mine: seq<bool>, kept: seq<bool>, name: string)
    requires Says(t, files, node, path, addrs, names, texts, mine, kept) && t.Mine(files, node, path, name)
    requires !t.Kept(files, node, path, addrs, name) || t.KeptTwice(files, node, path, addrs, name)
    ensures t.Target(name).value in GoneUpTo(texts, mine, kept, |names|)
  {
    var k :| 0 <= k < |names| && names[k] == name;
    if t.Kept(files, node, path, addrs, name) {
      var other :| other != name && t.Kept(files, node, path, addrs, other) && t.Target(other) == t.Target(name);
      var j :| 0 <= j < |names| && names[j] == other;
      var first, second := if j < k then j else k, if j < k then k else j;
      assert kept[first] && kept[second] && texts[first] == texts[second];
      assert texts[first] in Chosen(texts, kept, second);
      assert mine[second];
    }
  }

  lemma ListedIsMissed(t: FileNames, files: Files, node: string, path: string, addrs: map<string, string>,
                       names: seq<string>,
                       texts: seq<string>, mine: seq<bool>, kept: seq<bool>, k: nat)
    requires Says(t, files, node, path, addrs, names, texts, mine, kept) && k < |names|
    requires mine[k] && !(kept[k] && texts[k] !in Chosen(texts, kept, k))
    ensures texts[k] in t.Gone(files, node, path, addrs)
  {
    if kept[k] {
      var j :| 0 <= j < k && kept[j] && texts[j] == texts[k];
      assert names[j] != names[k] && t.Kept(files, node, path, addrs, names[j]) &&
             t.Target(names[j]) == t.Target(names[k]);
    }
    assert t.Target(names[k]).value in t.Gone(files, node, path, addrs);
  }

  lemma GoneIs(t: FileNames, files: Files, node: string, path: string, addrs: map<string, string>, names: seq<string>,
               texts: seq<string>, mine: seq<bool>, kept: seq<bool>)
    requires Says(t, files, node, path, addrs, names, texts, mine, kept)
    ensures GoneUpTo(texts, mine, kept, |names|) == t.Gone(files, node, path, addrs)
  {
    forall c | c in t.Gone(files, node, path, addrs) ensures c in GoneUpTo(texts, mine, kept, |names|) {
      var name :| name in files && t.Mine(files, node, path, name) && t.Target(name).value == c
                  && (!t.Kept(files, node, path, addrs, name) || t.KeptTwice(files, node, path, addrs, name));
      GoneIsListed(t, files, node, path, addrs, names, texts, mine, kept, name);
    }
    forall c | c in GoneUpTo(texts, mine, kept, |names|) ensures c in t.Gone(files, node, path, addrs) {
      var k :| 0 <= k < |names| && mine[k] && !(kept[k] && texts[k] !in Chosen(texts, kept, k)) && texts[k] == c;
      ListedIsMissed(t, files, node, path, addrs, names, texts, mine, kept, k);
    }
  }

  lemma {:induction false} CountIsSize(names: seq<string>, mine: seq<bool>, n: nat)
    requires n <= |names| == |mine| && Names.Distinct(names)
    ensures |Chosen(names, mine, n)| == CountUpTo(mine, n)
  {
    if n == 0 {
      assert Chosen(names, mine, 0) == {};
    } else {
      CountIsSize(names, mine, n - 1);
      assert Chosen(names, mine, n) == Chosen(names, mine, n - 1) + if mine[n - 1] then {names[n - 1]} else {};
      assert names[n - 1] !in Chosen(names, mine, n - 1);
    }
  }

  /** What the loop over the records removes, keeps and counts, in whatever order they are listed. */
  lemma ListedIsGone(t: FileNames, files: Files, node: string, path: string, addrs: map<string, string>,
                     records: seq<Record>, names: seq<string>)
    requires Lists(t, files, records, names)
    ensures var texts, mine, kept := Texts(t, records), AreListed(node, path, records),
            AreKept(t, node, path, addrs, records);
            && GoneUpTo(texts, mine, kept, |records|) == t.Gone(files, node, path, addrs)
            && Chosen(texts, kept, |records|) == t.KeptTexts(files, node, path, addrs)
            && CountUpTo(mine, |records|) == |t.MineAll(files, node, path)|
  {
    var texts, mine, kept := Texts(t, records), AreListed(node, path, records), AreKept(t, node, path, addrs, records);
    ListsSays(t, files, node, path, addrs, records, names);
    GoneIs(t, files, node, path, addrs, names, texts, mine, kept);
    KeptIs(t, files, node, path, addrs, names, texts, mine, kept);
    CountIsSize(names, mine, |names|);
    assert Chosen(names, mine, |names|) == t.MineAll(files, node, path);
  }

  lemma RefusedIs(t: FileNames, files: Files, keep: Record -> bool, records: seq<Record>, names: seq<string>, k: nat)
    requires Lists(t, files, records, names) && k < |records|
    ensures names[k] in t.Refused(files, keep) <==> !keep(records[k])
    ensures t.Target(names[k]) == Some(t.Show(records[k].ip))
  {
    assert records[k] == Record(t.Parse(names[k]).value, t.RecordAt(files, names[k]).value.0,
           t.RecordAt(files, names[k]).value.1);
  }

  lemma ChosenIs(t: FileNames, gone: set<string>, names: seq<string>, texts: seq<string>, chosen: seq<bool>)
    requires |names| == |texts| == |chosen|
    requires forall k :: 0 <= k < |names| ==> (names[k] in gone <==> chosen[k]) && t.Target(names[k]) == Some(texts[k])
    requires forall name :: name in gone ==> name in names
    ensures Chosen(names, chosen, |names|) == gone && Chosen(texts, chosen, |names|) == t.Targets(gone)
  {
    forall c | c in t.Targets(gone) ensures c in Chosen(texts, chosen, |names|) {
      var name :| name in gone && t.Parse(name).Some? && t.Target(name).value == c;
      var k :| 0 <= k < |names| && names[k] == name;
      assert chosen[k] && texts[k] == c;
    }
  }

  lemma RefusedIsGone(t: FileNames, files: Files, keep: Record -> bool, records: seq<Record>, names: seq<string>)
    requires Lists(t, files, records, names)
    ensures var texts, refused := Texts(t, records), AreRefused(keep, records);
            && Chosen(texts, refused, |records|) == t.Targets(t.Refused(files, keep))
            && CountUpTo(refused, |records|) == |t.Refused(files, keep)|
  {
    var texts, refused, gone := Texts(t, records), AreRefused(keep, records), t.Refused(files, keep);
    forall k | 0 <= k < |names| ensures (names[k] in gone <==> refused[k]) && t.Target(names[k]) == Some(texts[k]) {
      RefusedIs(t, files, keep, records, names, k);
    }
    ChosenIs(t, gone, names, texts, refused);
    CountIsSize(names, refused, |names|);
  }

  lemma WritesOneMore(t: FileNames, done: set<string>, addr: string)
    requires addr !in done
    ensures |t.Writes(done + {addr})| == |t.Writes(done)| + if t.Parse(addr).Some? then 1 else 0
  {
    assert t.Writes(done + {addr}) == t.Writes(done) + if t.Parse(addr).Some? then {addr} else {};
  }

  lemma WrittenOneMore(t: FileNames, before: Files, files: Files, node: string, addrs: map<string, string>,
                       done: set<string>, addr: string)
    requires done <= addrs.Keys && addr in addrs && t.Written(before, files, node, addrs, done)
    ensures t.Written(before, Put(t, files, addr, Line(node, addrs[addr])), node, addrs, done + {addr})
  {
    var after := Put(t, files, addr, Line(node, addrs[addr]));
    var more := done + {addr};
    forall name ensures t.WrittenAt(before, after, node, addrs, more, name) {
      assert t.WrittenAt(before, files, node, addrs, done, name);
      if t.Target(addr) == Some(name) {
        assert addr in more && after[name] == Line(node, addrs[addr]);
      } else if exists a :: a in done && t.Target(a) == Some(name) {
        var a :| a in done && t.Target(a) == Some(name) && files[name] == Line(node, addrs[a]);
        assert a in more;
      } else {
        assert forall a :: a in more ==> a == addr || a in done;
      }
    }
  }

  // ---------------------------------------------------------------- one report

  /** Every text is an address, in the form addresses are written in. */
  ghost predicate AllNamed(t: FileNames, addrs: map<string, string>) {
    forall name :: name in addrs ==> t.Named(name)
  }

  /** Every text that is an address is in the form addresses are written in. */
  ghost predicate NoOtherForm(t: FileNames, addrs: map<string, string>) {
    forall name :: name in addrs && t.Parse(name).Some? ==> t.Named(name)
  }

  /** The pairs whose text is an address. */
  ghost function Addressed(t: FileNames, addrs: map<string, string>): map<string, string> {
    map name | name in addrs && t.Parse(name).Some? :: addrs[name]
  }

  /** Every key names the object, and the records hold the node and the keys as they are. */
  ghost predicate Fitting(node: string, path: string, addrs: map<string, string>) {
    forall name :: name in addrs ==> Fits(node, addrs[name]) && NamedBy(addrs[name]) == Some(path)
  }

  /** The records of the object on the node are these pairs, no more. */
  ghost predicate Recorded(t: FileNames, files: Files, node: string, path: string, addrs: map<string, string>) {
    forall name, key :: t.Records(files, name, node, path, key) <==> name in addrs && addrs[name] == key
  }

  /** The records of the object on the node are all in files named after an address in the written form. */
  ghost predicate MineNamed(t: FileNames, files: Files, node: string, path: string) {
    forall name :: t.Mine(files, node, path, name) ==> t.Named(name)
  }

  /** Then an address is kept by its own file, and no other says the same. */
  lemma NamedKeeps(t: FileNames, files: Files, node: string, path: string, addrs: map<string, string>)
    requires MineNamed(t, files, node, path)
    ensures forall name :: name in t.KeptTexts(files, node, path, addrs) <==> t.Kept(files, node, path, addrs, name)
    ensures forall name :: name in t.Gone(files, node, path, addrs)
                      <==> t.Mine(files, node, path, name) && !t.Kept(files, node, path, addrs, name)
  {
    forall name | t.Mine(files, node, path, name)
      ensures name in files && t.Target(name) == Some(name) && !t.KeptTwice(files, node, path, addrs, name)
    {
      assert t.Named(name);
    }
  }

  /** A file of no address reported, and of no address recorded for the object, is left alone. */
  lemma FileOfOthersIsSame(t: FileNames, files: Files, after: Files, node: string, path: string,
                           addrs: map<string, string>, name: string)
    requires t.Reported(files, after, node, path, addrs)
    requires forall addr :: addr in addrs ==> t.Target(addr) != Some(name)
    requires forall other :: t.Mine(files, node, path, other) ==> t.Target(other) != Some(name)
    ensures Same(files, after, name)
  {
    var missing, gone := t.Missing(files, node, path, addrs), t.Gone(files, node, path, addrs);
    assert t.WrittenAt(files - gone, after, node, missing, missing.Keys, name);
    assert forall addr :: addr in missing.Keys ==> addr in addrs;
    assert name !in gone;
  }

  lemma WrittenOver(t: FileNames, base: Files, after: Files, node: string, addrs: map<string, string>)
    requires NoOtherForm(t, addrs) && t.Written(base, after, node, addrs, addrs.Keys)
    ensures after == base + map name | name in Addressed(t, addrs) :: Line(node, addrs[name])
  {
    var lines := map name | name in Addressed(t, addrs) :: Line(node, addrs[name]);
    forall name ensures Same(base + lines, after, name) {
      assert t.WrittenAt(base, after, node, addrs, addrs.Keys, name);
      if name in Addressed(t, addrs) {
        assert t.Target(name) == Some(name);
        var addr :| addr in addrs.Keys && t.Target(addr) == Some(name) && after[name] == Line(node, addrs[addr]);
        assert t.Named(addr) && addr == name;
      } else {
        assert forall addr :: addr in addrs.Keys && t.Target(addr) == Some(name) ==> t.Named(addr);
      }
    }
    SameIsEqual(base + lines, after);
  }

  lemma SameIsEqual(f: Files, g: Files)
    requires forall name :: Same(f, g, name)
    ensures f == g
  {
    forall name ensures name in f <==> name in g { assert Same(f, g, name); }
    assert f.Keys == g.Keys;
    forall name | name in f ensures f[name] == g[name] { assert Same(f, g, name); }
  }

  lemma ReportKeepsClean(t: FileNames, files: Files, after: Files, node: string, path: string,
                         addrs: map<string, string>)
    requires t.Valid() && t.Clean(files) && t.Reported(files, after, node, path, addrs)
    ensures t.Clean(after)
  {
    var missing, base := t.Missing(files, node, path, addrs), files - t.Gone(files, node, path, addrs);
    forall name | name in after && t.Parse(name).Some? ensures t.Named(name) {
      assert t.WrittenAt(base, after, node, missing, missing.Keys, name);
      if exists addr :: addr in missing.Keys && t.Target(addr) == Some(name) {
        var addr :| addr in missing.Keys && t.Target(addr) == Some(name);
        ShownIsNamed(t, addr);
      } else {
        assert Same(base, after, name);
      }
    }
  }

  /** The written form of an address is in the written form. */
  lemma ShownIsNamed(t: FileNames, addr: string)
    requires t.Valid() && t.Target(addr).Some?
    ensures t.Named(t.Target(addr).value)
  {
    assert t.text.InBounds();
    assert Canonical(t.Parse(addr).value);
  }

  lemma KeptAddressed(t: FileNames, files: Files, node: string, path: string, addrs: map<string, string>, name: string)
    requires MineNamed(t, files, node, path)
    ensures t.Kept(files, node, path, addrs, name) <==> t.Kept(files, node, path, Addressed(t, addrs), name)
  {
    if t.Mine(files, node, path, name) { assert t.Named(name); }
  }

  lemma AddressedGone(t: FileNames, files: Files, node: string, path: string, addrs: map<string, string>)
    requires MineNamed(t, files, node, path)
    ensures t.Gone(files, node, path, Addressed(t, addrs)) == t.Gone(files, node, path, addrs)
    ensures t.KeptTexts(files, node, path, Addressed(t, addrs)) == t.KeptTexts(files, node, path, addrs)
  {
    NamedKeeps(t, files, node, path, addrs);
    NamedKeeps(t, files, node, path, Addressed(t, addrs));
    forall name ensures t.Kept(files, node, path, addrs, name) <==>
        t.Kept(files, node, path, Addressed(t, addrs), name) {
      KeptAddressed(t, files, node, path, addrs, name);
    }
  }

  lemma AddressedMinus(t: FileNames, addrs: map<string, string>, gone: set<string>)
    ensures Addressed(t, addrs) - gone == Addressed(t, addrs - gone)
  {
  }

  lemma AddressedMissing(t: FileNames, files: Files, node: string, path: string, addrs: map<string, string>)
    requires MineNamed(t, files, node, path)
    ensures t.Missing(files, node, path, Addressed(t, addrs)) == Addressed(t, t.Missing(files, node, path, addrs))
  {
    AddressedGone(t, files, node, path, addrs);
    AddressedMinus(t, addrs, t.KeptTexts(files, node, path, addrs));
  }

  /** With no address in another form, a report leaves one thing only: the addresses reported, written. */
  lemma ReportIsSet(t: FileNames, files: Files, after: Files, node: string, path: string, addrs: map<string, string>)
    requires MineNamed(t, files, node, path) && NoOtherForm(t, addrs) && t.Reported(files, after, node, path, addrs)
    ensures after == t.Set(files, node, path, Addressed(t, addrs))
  {
    var missing := t.Missing(files, node, path, addrs);
    AddressedMissing(t, files, node, path, addrs);
    AddressedGone(t, files, node, path, addrs);
    var base, some := files - t.Gone(files, node, path, addrs), Addressed(t, missing);
    WrittenOver(t, base, after, node, missing);
    assert (map name | name in some :: Line(node, missing[name])) == map name | name in some :: Line(node, some[name]);
  }

  /** What is read of a file once the pairs are reported. */
  lemma RecordAfter(t: FileNames, files: Files, node: string, path: string, addrs: map<string, string>, name: string)
    requires MineNamed(t, files, node, path) && AllNamed(t, addrs)
    ensures t.RecordAt(t.Set(files, node, path, addrs), name) ==
            if name in addrs && !t.Kept(files, node, path, addrs, name) then ReadLine(Line(node, addrs[name]))
            else if t.Mine(files, node, path, name) && !t.Kept(files, node, path, addrs, name) then None
            else t.RecordAt(files, name)
  {
    NamedKeeps(t, files, node, path, addrs);
    if name in addrs { assert t.Named(name); }
  }

  lemma RecordedFits(t: FileNames, files: Files, name: string, node: string, path: string, key: string)
    requires t.Records(files, name, node, path, key)
    ensures Fits(node, key)
  {
    ReadFits(files[name]);
  }

  lemma FittingIsRecorded(t: FileNames, files: Files, node: string, path: string, addrs: map<string, string>)
    requires MineNamed(t, files, node, path) && AllNamed(t, addrs) && Fitting(node, path, addrs)
    ensures Recorded(t, t.Set(files, node, path, addrs), node, path, addrs)
  {
    var after := t.Set(files, node, path, addrs);
    forall name, key ensures t.Records(after, name, node, path, key) <==> name in addrs && addrs[name] == key {
      RecordAfter(t, files, node, path, addrs, name);
      if name in addrs {
        LineRoundTrip(node, addrs[name]);
        assert t.Named(name);
      }
      if t.Mine(files, node, path, name) { assert t.Named(name); }
    }
  }

  lemma AllAddressed(t: FileNames, addrs: map<string, string>)
    requires AllNamed(t, addrs)
    ensures NoOtherForm(t, addrs) && Addressed(t, addrs) == addrs
  {
    assert forall name :: name in addrs ==> t.Named(name);
  }

  /** A report touches no file named after an address in another form. */
  lemma StrayStays(t: FileNames, files: Files, after: Files, node: string, path: string, addrs: map<string, string>,
                   name: string)
    requires t.Valid() && t.Reported(files, after, node, path, addrs) && !t.Named(name)
    ensures Same(files, after, name)
  {
    var missing, gone := t.Missing(files, node, path, addrs), t.Gone(files, node, path, addrs);
    forall addr | t.Target(addr).Some? ensures t.Target(addr) != Some(name) { ShownIsNamed(t, addr); }
    assert t.WrittenAt(files - gone, after, node, missing, missing.Keys, name);
  }

  lemma StraySays(t: FileNames, files: Files, after: Files, node: string, path: string, addrs: map<string, string>,
                  name: string)
    requires t.Valid() && t.Reported(files, after, node, path, addrs) && !t.Named(name)
    ensures t.RecordAt(after, name) == t.RecordAt(files, name)
    ensures t.Mine(after, node, path, name) <==> t.Mine(files, node, path, name)
    ensures t.Kept(after, node, path, addrs, name) <==> t.Kept(files, node, path, addrs, name)
  {
    StrayStays(t, files, after, node, path, addrs, name);
  }

  lemma RecordedIsFitting(t: FileNames, after: Files, node: string, path: string, addrs: map<string, string>)
    requires Recorded(t, after, node, path, addrs)
    ensures Fitting(node, path, addrs)
  {
    forall name | name in addrs ensures Fits(node, addrs[name]) && NamedBy(addrs[name]) == Some(path) {
      assert t.Records(after, name, node, path, addrs[name]);
      RecordedFits(t, after, name, node, path, addrs[name]);
    }
  }

  lemma RecordedIsNamed(t: FileNames, files: Files, after: Files, node: string, path: string,
                        addrs: map<string, string>)
    requires t.Valid() && t.Reported(files, after, node, path, addrs) && Recorded(t, after, node, path, addrs)
    requires t.Clean(files) || AllNamed(t, addrs)
    ensures AllNamed(t, addrs) && MineNamed(t, files, node, path)
  {
    if t.Clean(files) {
      ReportKeepsClean(t, files, after, node, path, addrs);
      forall name | name in addrs ensures t.Named(name) { assert t.Records(after, name, node, path, addrs[name]); }
    } else {
      forall name | t.Mine(files, node, path, name) ensures t.Named(name) {
        if !t.Named(name) {
          StraySays(t, files, after, node, path, addrs, name);
          assert t.Records(after, name, node, path, t.RecordAt(files, name).value.1);
        }
      }
    }
  }

  /**
   The records of the object on the node are the pairs reported exactly when every text is an address in the written
   form, the pairs fit, and the object had no record in a file named otherwise: whatever is reported in a directory
   of names in the written form, and for texts in the written form in any directory.
   */
  lemma ReportedExactly(t: FileNames, files: Files, after: Files, node: string, path: string,
                        addrs: map<string, string>)
    requires t.Valid() && t.Reported(files, after, node, path, addrs) && (t.Clean(files) || AllNamed(t, addrs))
    ensures Recorded(t, after, node, path, addrs)
       <==> AllNamed(t, addrs) && Fitting(node, path, addrs) && MineNamed(t, files, node, path)
  {
    if Recorded(t, after, node, path, addrs) {
      RecordedIsFitting(t, after, node, path, addrs);
      RecordedIsNamed(t, files, after, node, path, addrs);
    }
    if AllNamed(t, addrs) && Fitting(node, path, addrs) && MineNamed(t, files, node, path) {
      AllAddressed(t, addrs);
      ReportIsSet(t, files, after, node, path, addrs);
      FittingIsRecorded(t, files, node, path, addrs);
    }
  }

  // ---------------------------------------------------------------- one address, in any directory

  /** A file in the written form: written when its address is reported and not kept, else removed or left. */
  lemma AfterReport(t: FileNames, files: Files, after: Files, node: string, path: string, addrs: map<string, string>,
                    name: string)
    requires t.Reported(files, after, node, path, addrs) && NoOtherForm(t, addrs) && t.Named(name)
    ensures var kept, gone := t.KeptTexts(files, node, path, addrs), t.Gone(files, node, path, addrs);
            if name in addrs && name !in kept then name in after && after[name] == Line(node, addrs[name])
            else Same(files - gone, after, name)
  {
    var missing, gone := t.Missing(files, node, path, addrs), t.Gone(files, node, path, addrs);
    assert t.WrittenAt(files - gone, after, node, missing, missing.Keys, name);
    assert forall addr :: addr in missing.Keys && t.Target(addr) == Some(name) ==> t.Named(addr) && addr == name;
  }

  /** No other record of the object, in another form of the address. */
  ghost predicate OnlyRecord(t: FileNames, files: Files, node: string, path: string, name: string) {
    forall other :: other != name && t.Mine(files, node, path, other) ==> t.Target(other) != Some(name)
  }

  /** Two records of the object for one address, one of them kept, and its file in the written form is removed. */
  lemma TwoRecordsAreGone(t: FileNames, files: Files, node: string, path: string, addrs: map<string, string>,
                          name: string, other: string)
    requires t.Kept(files, node, path, addrs, name) && t.Mine(files, node, path, other) && other != name
    requires t.Target(name) == t.Target(other) == Some(name)
    ensures name in t.Gone(files, node, path, addrs)
  {
    assert t.Kept(files, node, path, addrs, other) ==> t.KeptTwice(files, node, path, addrs, other);
    assert other in files && t.Target(other).value in t.Gone(files, node, path, addrs);
  }

  lemma KeptStaysExactly(t: FileNames, files: Files, node: string, path: string, addrs: map<string, string>,
                         name: string)
    requires t.Named(name) && name in t.KeptTexts(files, node, path, addrs)
    ensures t.Records(files - t.Gone(files, node, path, addrs), name, node, path, addrs[name])
       <==> t.Kept(files, node, path, addrs, name) && OnlyRecord(t, files, node, path, name)
  {
    var gone := t.Gone(files, node, path, addrs);
    if t.Kept(files, node, path, addrs, name) && OnlyRecord(t, files, node, path, name) {
      assert name !in gone;
    }
    if t.Records(files - gone, name, node, path, addrs[name]) {
      assert t.Kept(files, node, path, addrs, name);
      forall other | other != name && t.Mine(files, node, path, other) ensures t.Target(other) != Some(name) {
        if t.Target(other) == Some(name) { TwoRecordsAreGone(t, files, node, path, addrs, name, other); }
      }
    }
  }

  /**
   In any directory, once a report with no address in another form is done, the record of an address is the one
   reported exactly when: if a record said so before, it was in the file in the written form, with no record of the
   object in another form of the address; if none did, the pair fits, and its key names the object.
   */
  lemma RecordIsRightExactly(t: FileNames, files: Files, after: Files, node: string, path: string,
                             addrs: map<string, string>, name: string)
    requires t.Reported(files, after, node, path, addrs) && NoOtherForm(t, addrs) && name in addrs && t.Named(name)
    ensures t.Records(after, name, node, path, addrs[name]) <==>
            if name in t.KeptTexts(files, node, path, addrs)
            then t.Kept(files, node, path, addrs, name) && OnlyRecord(t, files, node, path, name)
            else Fits(node, addrs[name]) && NamedBy(addrs[name]) == Some(path)
  {
    AfterReport(t, files, after, node, path, addrs, name);
    if name in t.KeptTexts(files, node, path, addrs) {
      KeptStaysExactly(t, files, node, path, addrs, name);
    } else {
      LineRoundTrip(node, addrs[name]);
    }
  }

  // ---------------------------------------------------------------- the same report again

  /** A report writes nothing and removes nothing. */
  ghost predicate Quiet(t: FileNames, files: Files, node: string, path: string, addrs: map<string, string>) {
    t.Gone(files, node, path, addrs) == {} && t.Writes(t.Missing(files, node, path, addrs).Keys) == {}
  }

  /** Every record of the object in a file named otherwise says what is reported, and is alone to for its address. */
  ghost predicate StraysKept(t: FileNames, files: Files, node: string, path: string, addrs: map<string, string>) {
    forall name :: t.Mine(files, node, path, name) && !t.Named(name) ==>
      t.Kept(files, node, path, addrs, name) && AloneAmongStrays(t, files, node, path, addrs, name)
  }

  ghost predicate AloneAmongStrays(t: FileNames, files: Files, node: string, path: string, addrs: map<string, string>,
                                   name: string)
  {
    forall other :: other != name && !t.Named(other) && t.Kept(files, node, path, addrs, other) ==>
      t.Target(other) != t.Target(name)
  }

  lemma QuietKeeps(t: FileNames, files: Files, node: string, path: string, addrs: map<string, string>, name: string)
    requires Quiet(t, files, node, path, addrs) && t.Mine(files, node, path, name)
    ensures t.Kept(files, node, path, addrs, name) && !t.KeptTwice(files, node, path, addrs, name)
  {
    assert name in files && t.Target(name).value !in t.Gone(files, node, path, addrs);
  }

  lemma QuietFits(t: FileNames, files: Files, node: string, path: string, addrs: map<string, string>, name: string)
    requires t.Valid() && Quiet(t, files, node, path, addrs) && name in addrs && t.Parse(name).Some?
    ensures t.Named(name) && Fits(node, addrs[name]) && NamedBy(addrs[name]) == Some(path)
  {
    assert name !in t.Writes(t.Missing(files, node, path, addrs).Keys);
    var file :| file in files && t.Kept(files, node, path, addrs, file) && t.Target(file).value == name;
    ShownIsNamed(t, file);
    RecordedFits(t, files, file, node, path, addrs[name]);
  }

  lemma QuietStrays(t: FileNames, files: Files, after: Files, node: string, path: string, addrs: map<string, string>,
                    name: string)
    requires t.Valid() && t.Reported(files, after, node, path, addrs) && Quiet(t, after, node, path, addrs)
    requires t.Mine(files, node, path, name) && !t.Named(name)
    ensures t.Kept(files, node, path, addrs, name) && AloneAmongStrays(t, files, node, path, addrs, name)
  {
    StraySays(t, files, after, node, path, addrs, name);
    QuietKeeps(t, after, node, path, addrs, name);
    forall other | other != name && !t.Named(other) && t.Kept(files, node, path, addrs, other)
      ensures t.Target(other) != t.Target(name)
    {
      StraySays(t, files, after, node, path, addrs, other);
    }
  }

  /** A stray record that says what is reported leaves no record of the object in the file in the written form. */
  lemma StrayIsAlone(t: FileNames, files: Files, after: Files, node: string, path: string, addrs: map<string, string>,
                     stray: string, name: string)
    requires t.Valid() && t.Reported(files, after, node, path, addrs) && NoOtherForm(t, addrs)
    requires t.Kept(files, node, path, addrs, stray) && !t.Named(stray) && t.Target(stray) == Some(name)
    ensures t.Named(name) && !t.Mine(after, node, path, name)
  {
    ShownIsNamed(t, stray);
    AfterReport(t, files, after, node, path, addrs, name);
    assert stray in files && t.Target(stray).value in t.KeptTexts(files, node, path, addrs);
    if t.Mine(files, node, path, name) {
      assert t.KeptTwice(files, node, path, addrs, name) && name in files;
      assert t.Target(name).value in t.Gone(files, node, path, addrs);
    }
  }

  /** What the second report finds in a file in the written form is what it reports, and no other file says it. */
  lemma NamedIsKept(t: FileNames, files: Files, after: Files, node: string, path: string, addrs: map<string, string>,
                    name: string)
    requires t.Valid() && t.Reported(files, after, node, path, addrs) && NoOtherForm(t, addrs)
    requires Fitting(node, path, Addressed(t, addrs)) && t.Named(name) && t.Mine(after, node, path, name)
    ensures t.Kept(after, node, path, addrs, name) && !t.KeptTwice(after, node, path, addrs, name)
  {
    var gone, kept := t.Gone(files, node, path, addrs), t.KeptTexts(files, node, path, addrs);
    AfterReport(t, files, after, node, path, addrs, name);
    if name in addrs && name !in kept {
      LineRoundTrip(node, addrs[name]);
      assert name in Addressed(t, addrs);
    } else {
      assert name in files && t.Mine(files, node, path, name) && t.Target(name).value !in gone;
    }
    forall other | other != name && t.Kept(after, node, path, addrs, other) ensures t.Target(other) != Some(name) {
      if t.Target(other) == Some(name) {
        StraySays(t, files, after, node, path, addrs, other);
        StrayIsAlone(t, files, after, node, path, addrs, other, name);
      }
    }
  }

  lemma StrayIsKept(t: FileNames, files: Files, after: Files, node: string, path: string, addrs: map<string, string>,
                    name: string)
    requires t.Valid() && t.Reported(files, after, node, path, addrs) && NoOtherForm(t, addrs)
    requires StraysKept(t, files, node, path, addrs) && !t.Named(name) && t.Mine(after, node, path, name)
    ensures t.Kept(after, node, path, addrs, name) && !t.KeptTwice(after, node, path, addrs, name)
  {
    StraySays(t, files, after, node, path, addrs, name);
    assert AloneAmongStrays(t, files, node, path, addrs, name);
    forall other | other != name && t.Kept(after, node, path, addrs, other) ensures t.Target(other) != t.Target(name) {
      if !t.Named(other) {
        StraySays(t, files, after, node, path, addrs, other);
      } else if t.Target(other) == t.Target(name) {
        StrayIsAlone(t, files, after, node, path, addrs, name, other);
      }
    }
  }

  /** An address reported is kept by some file at the second report. */
  lemma ReportedIsKept(t: FileNames, files: Files, after: Files, node: string, path: string, addrs: map<string, string>,
                       name: string)
    requires t.Valid() && t.Reported(files, after, node, path, addrs) && NoOtherForm(t, addrs)
    requires Fitting(node, path, Addressed(t, addrs)) && StraysKept(t, files, node, path, addrs)
    requires name in addrs && t.Parse(name).Some?
    ensures name in t.KeptTexts(after, node, path, addrs)
  {
    assert name in Addressed(t, addrs) && t.Named(name);
    if stray :| t.Mine(files, node, path, stray) && !t.Named(stray) && t.Target(stray) == Some(name) {
      StraySays(t, files, after, node, path, addrs, stray);
      assert stray in after && t.Kept(after, node, path, addrs, stray);
    } else {
      RecordIsRightExactly(t, files, after, node, path, addrs, name);
      assert forall other :: other != name && t.Target(other) == Some(name) ==> !t.Named(other);
      assert t.Records(after, name, node, path, addrs[name]);
      assert name in after && t.Kept(after, node, path, addrs, name);
    }
  }

  lemma StraysKeptIsQuiet(t: FileNames, files: Files, after: Files, node: string, path: string,
                          addrs: map<string, string>)
    requires t.Valid() && t.Reported(files, after, node, path, addrs) && NoOtherForm(t, addrs)
    requires Fitting(node, path, Addressed(t, addrs)) && StraysKept(t, files, node, path, addrs)
    ensures Quiet(t, after, node, path, addrs)
  {
    forall name | t.Mine(after, node, path, name)
      ensures t.Kept(after, node, path, addrs, name) && !t.KeptTwice(after, node, path, addrs, name)
    {
      if t.Named(name) {
        NamedIsKept(t, files, after, node, path, addrs, name);
      } else {
        StrayIsKept(t, files, after, node, path, addrs, name);
      }
    }
    forall name | name in addrs && t.Parse(name).Some? ensures name in t.KeptTexts(after, node, path, addrs) {
      ReportedIsKept(t, files, after, node, path, addrs, name);
    }
  }

  /**
   In any directory, and whatever is reported, reporting the same pairs again writes nothing and removes nothing exactly
   when every text that is an address is in the written form, its key fits and names the object, and every record of
   the object in a file named otherwise says what is reported, alone to for its address.
   */
  lemma SecondReportIsQuiet(t: FileNames, files: Files, after: Files, node: string, path: string,
                            addrs: map<string, string>)
    requires t.Valid() && t.Reported(files, after, node, path, addrs)
    ensures Quiet(t, after, node, path, addrs) <==>
            && NoOtherForm(t, addrs) && Fitting(node, path, Addressed(t, addrs))
            && StraysKept(t, files, node, path, addrs)
  {
    if Quiet(t, after, node, path, addrs) {
      forall name | name in addrs && t.Parse(name).Some?
        ensures t.Named(name) && Fits(node, addrs[name]) && NamedBy(addrs[name]) == Some(path)
      {
        QuietFits(t, after, node, path, addrs, name);
      }
      forall name | t.Mine(files, node, path, name) && !t.Named(name)
        ensures t.Kept(files, node, path, addrs, name) && AloneAmongStrays(t, files, node, path, addrs, name)
      {
        QuietStrays(t, files, after, node, path, addrs, name);
      }
    }
    if NoOtherForm(t, addrs) && Fitting(node, path, Addressed(t, addrs)) && StraysKept(t, files, node, path, addrs) {
      StraysKeptIsQuiet(t, files, after, node, path, addrs);
    }
  }

  // ---------------------------------------------------------------- every run

  /** The last report of each object on each node: its pairs that no later report took over. */
  type Reports = map<(string, string), map<string, string>>

  datatype Call = Report(node: string, path: string, addrs: map<string, string>) | Drop(keep: Record -> bool)

  function IpOf(t: FileNames, name: string): Addr {
    match t.Parse(name) case Some(ip) => ip case None => Addr(false, 0)
  }

  ghost function Heard(t: FileNames, r: Reports, c: Call): Reports {
    match c
    case Report(node, path, addrs) =>
      var a := Addressed(t, addrs);
      (map q | q in r :: r[q] - a.Keys)[(node, path) := a]
    case Drop(keep) =>
      map q | q in r :: map name | name in r[q] && keep(Record(IpOf(t, name), q.0, r[q][name])) :: r[q][name]
  }

  ghost function Apply(t: FileNames, files: Files, c: Call): Files {
    match c
    case Report(node, path, addrs) => t.Set(files, node, path, Addressed(t, addrs))
    case Drop(keep) => files - t.Targets(t.Refused(files, keep))
  }

  predicate Holds(r: Reports, name: string, node: string, path: string, key: string) {
    (node, path) in r && name in r[(node, path)] && r[(node, path)][name] == key
  }

  /** The records are the reports. */
  ghost predicate Tells(t: FileNames, files: Files, r: Reports) {
    forall name, node, path, key :: t.Records(files, name, node, path, key) <==> Holds(r, name, node, path, key)
  }

  /** A report with no address in another form, whose keys fit. */
  ghost predicate Sound(t: FileNames, c: Call) {
    c.Report? ==> NoOtherForm(t, c.addrs) && Fitting(c.node, c.path, Addressed(t, c.addrs))
  }

  /** A record of another object or node, once the pairs are reported. */
  lemma OtherAfter(t: FileNames, files: Files, node: string, path: string, a: map<string, string>, name: string,
                   n: string, p: string, key: string)
    requires MineNamed(t, files, node, path) && AllNamed(t, a) && Fitting(node, path, a) && (n, p) != (node, path)
    ensures t.Records(t.Set(files, node, path, a), name, n, p, key) <==> name !in a && t.Records(files, name, n, p, key)
  {
    RecordAfter(t, files, node, path, a, name);
    if name in a { LineRoundTrip(node, a[name]); }
  }

  lemma CleanIsNamed(t: FileNames, files: Files, node: string, path: string)
    requires t.Clean(files)
    ensures MineNamed(t, files, node, path)
  {
  }

  lemma ReportTells(t: FileNames, files: Files, r: Reports, c: Call, name: string, node: string, path: string,
                    key: string)
    requires t.Clean(files) && Tells(t, files, r) && c.Report? && Sound(t, c)
    ensures t.Records(Apply(t, files, c), name, node, path, key) <==> Holds(Heard(t, r, c), name, node, path, key)
  {
    var a := Addressed(t, c.addrs);
    CleanIsNamed(t, files, c.node, c.path);
    if (node, path) == (c.node, c.path) {
      FittingIsRecorded(t, files, c.node, c.path, a);
    } else {
      OtherAfter(t, files, c.node, c.path, a, name, node, path, key);
      assert t.Records(files, name, node, path, key) <==> Holds(r, name, node, path, key);
    }
  }

  lemma DropTells(t: FileNames, files: Files, r: Reports, c: Call, name: string, node: string, path: string,
                  key: string)
    requires t.Clean(files) && Tells(t, files, r) && c.Drop?
    ensures t.Records(Apply(t, files, c), name, node, path, key) <==> Holds(Heard(t, r, c), name, node, path, key)
  {
    assert t.Records(files, name, node, path, key) <==> Holds(r, name, node, path, key);
    var refused := t.Refused(files, c.keep);
    forall n ensures n in t.Targets(refused) <==> n in refused {
      if n in refused { assert t.Named(n); }
      if n in t.Targets(refused) {
        var m :| m in refused && t.Parse(m).Some? && t.Target(m).value == n;
        assert t.Named(m);
      }
    }
  }

  lemma CallTells(t: FileNames, files: Files, r: Reports, c: Call)
    requires t.Clean(files) && Tells(t, files, r) && Sound(t, c)
    ensures Tells(t, Apply(t, files, c), Heard(t, r, c))
  {
    forall name, node, path, key
      ensures t.Records(Apply(t, files, c), name, node, path, key) <==> Holds(Heard(t, r, c), name, node, path, key)
    {
      if c.Report? {
        ReportTells(t, files, r, c, name, node, path, key);
      } else {
        DropTells(t, files, r, c, name, node, path, key);
      }
    }
  }

  lemma CallKeepsClean(t: FileNames, files: Files, c: Call)
    requires t.Clean(files) && Sound(t, c)
    ensures t.Clean(Apply(t, files, c))
  {
    if c.Report? {
      var a := Addressed(t, c.addrs);
      forall name | name in Apply(t, files, c) && t.Parse(name).Some? ensures t.Named(name) {
        assert name in files || name in a;
      }
    }
  }

  ghost function Run(t: FileNames, calls: seq<Call>): Files {
    if calls == [] then map[] else Apply(t, Run(t, calls[..|calls| - 1]), calls[|calls| - 1])
  }

  ghost function RunReports(t: FileNames, calls: seq<Call>): Reports {
    if calls == [] then map[] else Heard(t, RunReports(t, calls[..|calls| - 1]), calls[|calls| - 1])
  }

  lemma NothingTells(t: FileNames)
    ensures Tells(t, map[], map[]) && t.Clean(map[])
  {
  }

  /** The records are the reports after any run, and the names of the files stay in the written form. */
  ghost predicate RunHolds(t: FileNames, calls: seq<Call>) {
    Tells(t, Run(t, calls), RunReports(t, calls)) && t.Clean(Run(t, calls))
  }

  lemma CallHolds(t: FileNames, calls: seq<Call>)
    requires calls != [] && RunHolds(t, calls[..|calls| - 1]) && Sound(t, calls[|calls| - 1])
    ensures RunHolds(t, calls)
  {
    var before, c := calls[..|calls| - 1], calls[|calls| - 1];
    CallTells(t, Run(t, before), RunReports(t, before), c);
    CallKeepsClean(t, Run(t, before), c);
  }

  /** After any run of reports and drops, the records are what each object last reported on each node. */
  lemma {:induction false} RunTells(t: FileNames, calls: seq<Call>)
    requires forall k :: 0 <= k < |calls| ==> Sound(t, calls[k])
    ensures RunHolds(t, calls)
  {
    if calls == [] {
      NothingTells(t);
    } else {
      RunTells(t, calls[..|calls| - 1]);
      CallHolds(t, calls);
    }
  }
}
