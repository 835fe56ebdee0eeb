/** Lists of names sorted as Go sorts strings, by code point. */
module Names {
  predicate Less(a: string, b: string) {
    b != "" && (a == "" || a[0] < b[0] || (a[0] == b[0] && Less(a[1..], b[1..])))
  }

  lemma {:induction false} LessTransitive(a: string, b: string, c: string)
    requires Less(a, b) && Less(b, c)
    ensures Less(a, c)
  {
    if a != "" && a[0] == b[0] == c[0] { LessTransitive(a[1..], b[1..], c[1..]); }
  }

  lemma {:induction false} LessTotal(a: string, b: string)
    ensures a == b || Less(a, b) || Less(b, a)
    ensures !(Less(a, b) && Less(b, a)) && !Less(a, a)
  {
    if a != "" && b != "" && a[0] == b[0] {
      LessTotal(a[1..], b[1..]);
      assert a[1..] == b[1..] ==> a == [a[0]] + a[1..] && b == [b[0]] + b[1..];
    }
    if a == "" {
    } else {
      LessTotal(a[1..], a[1..]);
    }
  }

  /** Sorted, each name once. */
  ghost predicate Ordered(s: seq<string>) {
    forall i, j :: 0 <= i < j < |s| ==> Less(s[i], s[j])
  }

  ghost function Elements(s: seq<string>): set<string> {
    set x | x in s
  }

  function Insert(s: seq<string>, x: string): seq<string> {
    if s == [] || Less(x, s[0]) then [x] + s else [s[0]] + Insert(s[1..], x)
  }

  /** slices.Sort */
  function Sort(s: seq<string>): seq<string> {
    if s == [] then [] else Insert(Sort(s[..|s| - 1]), s[|s| - 1])
  }

  lemma {:induction false} InsertElements(s: seq<string>, x: string)
    ensures Elements(Insert(s, x)) == Elements(s) + {x}
  {
    if s != [] && !Less(x, s[0]) {
      InsertElements(s[1..], x);
      assert s == [s[0]] + s[1..];
      assert Elements(s) == {s[0]} + Elements(s[1..]);
      assert Elements(Insert(s, x)) == {s[0]} + Elements(Insert(s[1..], x));
    }
  }

  lemma {:induction false} InsertOrdered(s: seq<string>, x: string)
    requires Ordered(s) && x !in s
    ensures Ordered(Insert(s, x))
  {
    if s == [] {
    } else if Less(x, s[0]) {
      forall j | 0 < j < |s| ensures Less(x, s[j]) { LessTransitive(x, s[0], s[j]); }
    } else {
      var r := Insert(s[1..], x);
      LessTotal(x, s[0]);
      InsertOrdered(s[1..], x);
      InsertElements(s[1..], x);
      forall j | 0 <= j < |r| ensures Less(s[0], r[j]) {
        assert r[j] in Elements(r);
        assert r[j] == x || r[j] in s[1..];
      }
    }
  }

  ghost predicate Distinct(s: seq<string>) {
    forall i, j :: 0 <= i < j < |s| ==> s[i] != s[j]
  }

  lemma {:induction false} SortOrders(s: seq<string>)
    ensures Elements(Sort(s)) == Elements(s)
    ensures Distinct(s) ==> Ordered(Sort(s))
  {
    if s == [] {
    } else {
      var n := |s| - 1;
      SortOrders(s[..n]);
      InsertElements(Sort(s[..n]), s[n]);
      assert s == s[..n] + [s[n]];
      assert Elements(s) == Elements(s[..n]) + {s[n]};
      if Distinct(s) {
        assert s[n] !in Elements(s[..n]);
        assert s[n] !in Sort(s[..n]) by { assert s[n] !in Elements(Sort(s[..n])); }
        InsertOrdered(Sort(s[..n]), s[n]);
      }
    }
  }

  /** There is one sorted list of a set of names. */
  lemma {:induction false} OrderedIsUnique(a: seq<string>, b: seq<string>)
    requires Ordered(a) && Ordered(b) && Elements(a) == Elements(b)
    ensures a == b
  {
    NoElements(a);
    NoElements(b);
    if a == [] {
    } else {
      assert a[0] in Elements(a) && b[0] in Elements(b);
      FirstIsLeast(a, b[0]);
      FirstIsLeast(b, a[0]);
      LessTotal(a[0], b[0]);
      TailElements(a);
      TailElements(b);
      OrderedIsUnique(a[1..], b[1..]);
      assert a == [a[0]] + a[1..] && b == [b[0]] + b[1..];
    }
  }

  lemma NoElements(s: seq<string>)
    ensures Elements(s) == {} <==> s == []
  {
    if s != [] { assert s[0] in Elements(s); }
  }

  lemma FirstIsLeast(s: seq<string>, x: string)
    requires Ordered(s) && x in s
    ensures x == s[0] || Less(s[0], x)
  {
  }

  lemma TailElements(s: seq<string>)
    requires Ordered(s) && s != []
    ensures Elements(s[1..]) == Elements(s) - {s[0]}
  {
    forall x | x in s && x != s[0] ensures x in s[1..] {
      var i :| 0 <= i < |s| && s[i] == x;
      assert s[1..][i - 1] == x;
    }
    forall x | x in s[1..] ensures x != s[0] {
      var i :| 0 <= i < |s[1..]| && s[1..][i] == x;
      assert Less(s[0], s[i + 1]);
      LessTotal(s[0], s[0]);
    }
  }
}
