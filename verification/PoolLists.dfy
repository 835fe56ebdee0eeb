/** Lists of pools: the overlap check of ParsePools (core/ipam/pool.go) and the walk over them (core/ipam/ipam.go). */
module PoolLists {
  import opened Text
  import opened Address
  import opened Pools

  ghost predicate AllValid(pools: seq<Pool>) {
    forall p :: p in pools ==> p.Valid()
  }

  /** The pools are as ParsePool gives them. */
  ghost predicate AllRead(pools: seq<Pool>) {
    forall p :: p in pools ==> p.Read()
  }

  ghost predicate NoneEmpty(pools: seq<Pool>) {
    forall p :: p in pools ==> p.Size() > 0
  }

  /** No address is in both. */
  ghost predicate Apart(p: Pool, q: Pool) {
    forall a :: Canonical(a) && p.Contains(a) ==> !q.Contains(a)
  }

  ghost predicate Disjoint(pools: seq<Pool>) {
    forall i, j :: 0 <= i < j < |pools| ==> Apart(pools[i], pools[j])
  }

  predicate Holds(pools: seq<Pool>, a: Addr) {
    exists i :: 0 <= i < |pools| && pools[i].Contains(a)
  }

  // ---------------------------------------------------------------- reading a list

  ghost predicate SortedByFirst(s: seq<Pool>) {
    forall i, j :: 0 <= i < j < |s| ==> s[i].first.n <= s[j].first.n
  }

  predicate AdjacentApart(s: seq<Pool>) {
    forall i :: 1 <= i < |s| ==> !s[i].Overlaps(s[i - 1])
  }

  function InsertByFirst(s: seq<Pool>, p: Pool): seq<Pool> {
    if s == [] || p.first.n < s[0].first.n then [p] + s else [s[0]] + InsertByFirst(s[1..], p)
  }

  lemma {:induction false} InsertByFirstContents(s: seq<Pool>, p: Pool)
    ensures multiset(InsertByFirst(s, p)) == multiset(s) + multiset{p}
  {
    if s != [] && p.first.n >= s[0].first.n {
      InsertByFirstContents(s[1..], p);
      assert s == [s[0]] + s[1..];
    }
  }

  ghost predicate NoneBefore(s: seq<Pool>, n: nat) {
    forall i :: 0 <= i < |s| ==> n <= s[i].first.n
  }

  lemma {:induction false} InsertNoneBefore(s: seq<Pool>, p: Pool, n: nat)
    requires NoneBefore(s, n) && n <= p.first.n
    ensures NoneBefore(InsertByFirst(s, p), n)
  {
    if s == [] || p.first.n < s[0].first.n {
    } else {
      InsertNoneBefore(s[1..], p, n);
    }
  }

  lemma FirstAhead(h: Pool, s: seq<Pool>)
    requires SortedByFirst(s) && NoneBefore(s, h.first.n)
    ensures SortedByFirst([h] + s)
  {
  }

  lemma {:induction false} InsertByFirstSorts(s: seq<Pool>, p: Pool)
    requires SortedByFirst(s)
    ensures SortedByFirst(InsertByFirst(s, p))
  {
    if s == [] {
    } else if p.first.n < s[0].first.n {
      FirstAhead(p, s);
    } else {
      InsertByFirstSorts(s[1..], p);
      InsertNoneBefore(s[1..], p, s[0].first.n);
      FirstAhead(s[0], InsertByFirst(s[1..], p));
    }
  }

  /** Every text says a pool. */
  ghost predicate AllPools(read: Read, l: seq<string>) {
    forall i :: 0 <= i < |l| ==> ParsePool(read, l[i]).Some?
  }

  /** The pools the texts say, in the order of the texts. */
  ghost function PoolsOf(read: Read, l: seq<string>): (pools: seq<Pool>)
    requires AllPools(read, l)
    ensures |pools| == |l| && forall i :: 0 <= i < |l| ==> ParsePool(read, l[i]) == Some(pools[i])
  {
    seq(|l|, i requires 0 <= i < |l| => ParsePool(read, l[i]).value)
  }

  method ParseEach(read: Read, l: seq<string>) returns (r: Option<seq<Pool>>)
    ensures r.None? <==> exists i :: 0 <= i < |l| && ParsePool(read, l[i]).None?
    ensures r.Some? ==> |r.value| == |l| && forall i :: 0 <= i < |l| ==> ParsePool(read, l[i]) == Some(r.value[i])
  {
    var pools: seq<Pool> := [];
    for i := 0 to |l|
      invariant |pools| == i && forall k :: 0 <= k < i ==> ParsePool(read, l[k]) == Some(pools[k])
    {
      var p := ParsePool(read, l[i]);
      if p.None? {
        return None;
      }
      pools := pools + [p.value];
    }
    return Some(pools);
  }

  method SortByFirst(pools: seq<Pool>) returns (s: seq<Pool>)
    ensures SortedByFirst(s) && multiset(s) == multiset(pools)
  {
    s := [];
    for i := 0 to |pools|
      invariant SortedByFirst(s) && multiset(s) == multiset(pools[..i])
    {
      InsertByFirstSorts(s, pools[i]);
      InsertByFirstContents(s, pools[i]);
      s := InsertByFirst(s, pools[i]);
      assert pools[..i + 1] == pools[..i] + [pools[i]];
    }
    assert pools[..|pools|] == pools;
  }

  /**
   The pools of a list, in the order given, refused for a text that says none, or when two neighbours by first address
   overlap.
   */
  method ParsePools(read: Read, l: seq<string>) returns (r: Option<seq<Pool>>, ghost sorted: seq<Pool>)
    ensures r.Some? ==> |r.value| == |l| && forall i :: 0 <= i < |l| ==> ParsePool(read, l[i]) == Some(r.value[i])
    ensures r.None? <==>
            || (exists i :: 0 <= i < |l| && ParsePool(read, l[i]).None?)
            || (exists k :: 1 <= k < |sorted| && sorted[k].Overlaps(sorted[k - 1]))
    ensures AllPools(read, l) ==> SortedByFirst(sorted) && multiset(sorted) == multiset(PoolsOf(read, l))
  {
    sorted := [];
    var pools := ParseEach(read, l);
    if pools.None? {
      return None, sorted;
    }
    assert pools.value == PoolsOf(read, l);
    var s := SortByFirst(pools.value);
    sorted := s;
    var i := 1;
    while i < |s|
      invariant forall k :: 1 <= k < i && k < |s| ==> !s[k].Overlaps(s[k - 1])
    {
      if s[i].Overlaps(s[i - 1]) {
        return None, sorted;
      }
      i := i + 1;
    }
    return pools, sorted;
  }

  // ---------------------------------------------------------------- what the check accepts

  /** Between two pools of a family there is none of the other. */
  ghost predicate FamiliesTogether(s: seq<Pool>) {
    forall i, j, k :: 0 <= i < j < k < |s| && s[i].first.v4 == s[k].first.v4 ==> s[j].first.v4 == s[i].first.v4
  }

  ghost predicate OneFamily(pools: seq<Pool>) {
    forall p, q :: p in pools && q in pools ==> p.first.v4 == q.first.v4
  }

  lemma ApartMeansNoOverlap(p: Pool, q: Pool)
    requires p.Valid() && q.Valid()
    ensures Apart(p, q) <==> !p.Overlaps(q)
    ensures Apart(p, q) <==> Apart(q, p)
  {
    OverlapsMeansShared(p, q);
  }

  lemma {:induction false} PastTheLast(s: seq<Pool>, i: nat, j: nat)
    requires AllValid(s) && SortedByFirst(s) && FamiliesTogether(s) && AdjacentApart(s)
    requires i < j < |s| && s[i].first.v4 == s[j].first.v4
    ensures s[i].last.n < s[j].first.n
    decreases j
  {
    assert s[j].Valid() && s[j - 1].Valid() && !s[j].Overlaps(s[j - 1]);
    if i < j - 1 { PastTheLast(s, i, j - 1); }
  }

  lemma AdjacentApartIsDisjoint(s: seq<Pool>)
    requires AllValid(s) && SortedByFirst(s) && FamiliesTogether(s) && AdjacentApart(s)
    ensures Disjoint(s)
  {
    forall i, j | 0 <= i < j < |s| ensures Apart(s[i], s[j]) {
      if s[i].first.v4 == s[j].first.v4 { PastTheLast(s, i, j); }
    }
  }

  lemma DisjointIsAdjacentApart(s: seq<Pool>)
    requires AllValid(s) && Disjoint(s)
    ensures AdjacentApart(s)
  {
    forall i | 1 <= i < |s| ensures !s[i].Overlaps(s[i - 1]) {
      assert Apart(s[i - 1], s[i]);
      ApartMeansNoOverlap(s[i - 1], s[i]);
      ApartMeansNoOverlap(s[i], s[i - 1]);
    }
  }

  lemma {:induction false} TwoCopies<T>(s: seq<T>, x: T) returns (i: nat, j: nat)
    requires multiset(s)[x] >= 2
    ensures i < j < |s| && s[i] == x && s[j] == x
  {
    assert s == [s[0]] + s[1..];
    if s[0] == x {
      assert x in multiset(s[1..]);
      var k :| 0 <= k < |s[1..]| && s[1..][k] == x;
      return 0, k + 1;
    }
    var a, b := TwoCopies(s[1..], x);
    return a + 1, b + 1;
  }

  /** Being disjoint does not depend on the order of the list. */
  lemma DisjointUpToOrder(a: seq<Pool>, b: seq<Pool>)
    requires multiset(a) == multiset(b) && AllValid(a) && Disjoint(a)
    ensures AllValid(b) && Disjoint(b)
  {
    forall p | p in b ensures p in a { assert p in multiset(b); }
    forall i, j | 0 <= i < j < |b| ensures Apart(b[i], b[j]) {
      assert b[i] in multiset(b) && b[j] in multiset(b);
      if b[i] == b[j] {
        CopiesCount(b, i, j);
        var x, y := TwoCopies(a, b[i]);
        assert Apart(a[x], a[y]);
      } else {
        var x :| 0 <= x < |a| && a[x] == b[i];
        var y :| 0 <= y < |a| && a[y] == b[j];
        assert x < y ==> Apart(a[x], a[y]);
        assert y < x ==> Apart(a[y], a[x]);
      }
    }
  }

  lemma CopiesCount<T>(s: seq<T>, i: nat, j: nat)
    requires i < j < |s| && s[i] == s[j]
    ensures multiset(s)[s[i]] >= 2
  {
    assert s == s[..j] + s[j..];
    assert s[..j][i] in multiset(s[..j]);
    assert s[j..][0] in multiset(s[j..]);
  }

  /** On pools of one family the check accepts exactly the disjoint lists, whatever order the sort leaves ties in. */
  lemma AcceptsExactlyDisjoint(pools: seq<Pool>, sorted: seq<Pool>)
    requires AllValid(pools) && multiset(sorted) == multiset(pools) && SortedByFirst(sorted)
    requires OneFamily(pools) || FamiliesTogether(sorted)
    ensures AdjacentApart(sorted) <==> Disjoint(pools)
  {
    forall p | p in sorted ensures p in pools { assert p in multiset(sorted); }
    if AdjacentApart(sorted) {
      AdjacentApartIsDisjoint(sorted);
      DisjointUpToOrder(sorted, pools);
    }
    if Disjoint(pools) {
      DisjointUpToOrder(pools, sorted);
      DisjointIsAdjacentApart(sorted);
    }
  }

  /** A pool of the other family between two that overlap hides them: 10.0.0.0-10.0.0.9, ::a00:1 and 10.0.0.2. */
  lemma MixedFamiliesHideAnOverlap()
    ensures var s := [Pool(Addr(true, 0x0a00_0000), Addr(true, 0x0a00_0009)),
                      Pool(Addr(false, 0x0a00_0001), Addr(false, 0x0a00_0001)),
                      Pool(Addr(true, 0x0a00_0002), Addr(true, 0x0a00_0002))];
            AllValid(s) && SortedByFirst(s) && AdjacentApart(s) && !Disjoint(s)
  {
    var p, q := Pool(Addr(true, 0x0a00_0000), Addr(true, 0x0a00_0009)),
        Pool(Addr(true, 0x0a00_0002), Addr(true, 0x0a00_0002));
    var s := [p, Pool(Addr(false, 0x0a00_0001), Addr(false, 0x0a00_0001)), q];
    assert Canonical(q.first) && p.Contains(q.first) && q.Contains(q.first);
    assert !Apart(s[0], s[2]);
  }

  /** In this order of the families, between two of a family there is none of the other. */
  ghost predicate Together(v4: seq<bool>) {
    forall i, j, k :: 0 <= i < j < k < |v4| && v4[i] == v4[k] ==> v4[j] == v4[i]
  }

  ghost predicate OfFamilies(s: seq<Pool>, v4: seq<bool>) {
    |s| == |v4| && forall i :: 0 <= i < |s| ==> s[i].first.v4 == v4[i]
  }

  /** The check is right on every sorted list with its families in this order. */
  ghost predicate CheckIsRight(v4: seq<bool>) {
    forall s :: AllValid(s) && SortedByFirst(s) && OfFamilies(s, v4) ==> (AdjacentApart(s) <==> Disjoint(s))
  }

  /** Two of a family with only ones of the other between them. */
  lemma {:induction false} NearestApart(v4: seq<bool>, i: nat, k: nat) returns (a: nat, b: nat)
    requires i < k < |v4| && v4[i] == v4[k] && exists j :: i < j < k && v4[j] != v4[i]
    ensures i <= a < a + 1 < b <= k && v4[a] == v4[b] == v4[i] && forall j :: a < j < b ==> v4[j] != v4[i]
    decreases k - i
  {
    if v4[i + 1] == v4[i] {
      a, b := NearestApart(v4, i + 1, k);
    } else if v4[k - 1] == v4[i] {
      a, b := NearestApart(v4, i, k - 1);
    } else if j :| i < j < k && v4[j] == v4[i] {
      a, b := NearestApart(v4, i, j);
    } else {
      a, b := i, k;
    }
  }

  /** One address a pool, but for the pool `a`, which goes up to the one of the pool `b`. */
  ghost function Hiding(v4: seq<bool>, a: nat, b: nat): (s: seq<Pool>)
    requires a < b < |v4| <= V4_SIZE
    ensures |s| == |v4|
    ensures forall i :: 0 <= i < |v4| ==> s[i] == Pool(Addr(v4[i], i), Addr(v4[i], if i == a then b else i))
  {
    seq(|v4|, i requires 0 <= i < |v4| => Pool(Addr(v4[i], i), Addr(v4[i], if i == a then b else i)))
  }

  lemma HidingIsAccepted(v4: seq<bool>, a: nat, b: nat)
    requires a + 1 < b < |v4| <= V4_SIZE && v4[a] == v4[b] && forall j :: a < j < b ==> v4[j] != v4[a]
    ensures var s := Hiding(v4, a, b);
            AllValid(s) && SortedByFirst(s) && OfFamilies(s, v4) && AdjacentApart(s) && !Disjoint(s)
  {
    var s := Hiding(v4, a, b);
    assert forall i :: 0 <= i < |s| ==> s[i].Valid();
    assert s[b].Contains(s[b].first) && s[a].Contains(s[b].first) && Canonical(s[b].first);
    assert !Apart(s[a], s[b]);
  }

  /** The check is right whatever the pools exactly when the families are not interleaved. */
  lemma RightExactlyWhenTogether(v4: seq<bool>)
    requires |v4| <= V4_SIZE
    ensures CheckIsRight(v4) <==> Together(v4)
  {
    if Together(v4) {
      forall s | AllValid(s) && SortedByFirst(s) && OfFamilies(s, v4) ensures AdjacentApart(s) <==> Disjoint(s) {
        assert FamiliesTogether(s);
        AcceptsExactlyDisjoint(s, s);
      }
    } else {
      var i, j, k :| 0 <= i < j < k < |v4| && v4[i] == v4[k] && v4[j] != v4[i];
      var a, b := NearestApart(v4, i, k);
      HidingIsAccepted(v4, a, b);
      assert OfFamilies(Hiding(v4, a, b), v4);
    }
  }

  // ---------------------------------------------------------------- walking the pools

  function PoolsSize(pools: seq<Pool>): int {
    if pools == [] then 0 else pools[0].Size() + PoolsSize(pools[1..])
  }

  /** The address at an offset in the pools, walked one after the other. */
  function PoolsAddr(pools: seq<Pool>, offset: nat): Option<Addr> {
    if pools == [] then None
    else if offset < pools[0].Size() then Some(Canon(pools[0].first.v4, pools[0].first.n + offset))
    else if offset - pools[0].Size() >= 0 then PoolsAddr(pools[1..], offset - pools[0].Size())
    else None
  }

  method SizeOf(pools: seq<Pool>) returns (size: int)
    ensures size == PoolsSize(pools)
  {
    size := 0;
    for i := 0 to |pools|
      invariant size + PoolsSize(pools[i..]) == PoolsSize(pools)
    {
      assert pools[i..][1..] == pools[i + 1..];
      size := size + pools[i].Size();
    }
  }

  lemma WalkStep(pools: seq<Pool>, i: nat, offset: nat)
    requires i < |pools|
    ensures var p := pools[i];
            PoolsAddr(pools[i..], offset)
              == if offset < p.Size() then Some(Canon(p.first.v4, p.first.n + offset))
                 else PoolsAddr(pools[i + 1..], offset - p.Size())
  {
    assert pools[i..][0] == pools[i] && pools[i..][1..] == pools[i + 1..];
  }

  lemma InItsFamily(p: Pool, offset: nat)
    requires p.Read() && offset < p.Size()
    ensures p.first.n + offset < if p.first.v4 then V4_SIZE else V6_SIZE
  {
  }

  /** The walk of the source, with the bytes of the address it returns. */
  method AddrAt(pools: seq<Pool>, offset: nat) returns (ip: Option<IP>)
    requires AllRead(pools)
    ensures ip.None? <==> PoolsAddr(pools, offset).None?
    ensures ip.Some? ==> PoolsAddr(pools, offset) == Some(AddrOf(ip.value))
  {
    var rest: nat := offset;
    for i := 0 to |pools|
      invariant PoolsAddr(pools, offset) == PoolsAddr(pools[i..], rest)
    {
      var p := pools[i];
      WalkStep(pools, i, rest);
      if rest < p.Size() {
        InItsFamily(p, rest);
        var b := IntToIP(p.first.n + rest, p.first.v4);
        return Some(b);
      }
      rest := rest - p.Size();
    }
    return None;
  }

  /** Where the walk meets an address some pool holds. */
  ghost function OffsetOf(pools: seq<Pool>, a: Addr): int {
    if pools == [] then 0
    else if pools[0].Contains(a) then a.n - pools[0].first.n
    else pools[0].Size() + OffsetOf(pools[1..], a)
  }

  lemma HoldsTail(pools: seq<Pool>, a: Addr)
    requires pools != []
    ensures Holds(pools, a) <==> pools[0].Contains(a) || Holds(pools[1..], a)
  {
    if Holds(pools, a) {
      var i :| 0 <= i < |pools| && pools[i].Contains(a);
      if i > 0 { assert pools[1..][i - 1].Contains(a); }
    }
    if Holds(pools[1..], a) {
      var i :| 0 <= i < |pools[1..]| && pools[1..][i].Contains(a);
      assert pools[i + 1].Contains(a);
    }
  }

  lemma {:induction false} SizeIsPositive(pools: seq<Pool>)
    requires NoneEmpty(pools)
    ensures PoolsSize(pools) >= |pools|
  {
    if pools == [] {
    } else {
      assert pools[0].Size() > 0;
      SizeIsPositive(pools[1..]);
    }
  }

  /** Every address of the pools is on the walk. */
  lemma {:induction false} WalkMeetsEveryAddress(pools: seq<Pool>, a: Addr)
    requires AllRead(pools) && NoneEmpty(pools) && Canonical(a) && Holds(pools, a)
    ensures 0 <= OffsetOf(pools, a) < PoolsSize(pools)
    ensures PoolsAddr(pools, OffsetOf(pools, a)) == Some(a)
  {
    assert pools[0].Read() && pools[0].Size() > 0;
    SizeIsPositive(pools[1..]);
    HoldsTail(pools, a);
    if !pools[0].Contains(a) { WalkMeetsEveryAddress(pools[1..], a); }
  }

  /** The pool goes over the addresses standing for ipv4 ones, which no ipv6 pool holds. */
  ghost predicate OverMapped(p: Pool) {
    !p.first.v4 && p.first.n < MAPPED && MAPPED + V4_SIZE <= p.last.n
  }

  ghost predicate NoneOverMapped(pools: seq<Pool>) {
    forall p :: p in pools ==> !OverMapped(p)
  }

  /** The walk stays in the pools, and meets each address once, at its offset. */
  lemma {:induction false} WalkStaysInThePools(pools: seq<Pool>, offset: nat)
    requires AllValid(pools) && Disjoint(pools) && NoneOverMapped(pools) && offset < PoolsSize(pools)
    ensures var a := PoolsAddr(pools, offset);
            a.Some? && Canonical(a.value) && Holds(pools, a.value) && OffsetOf(pools, a.value) == offset
  {
    var p := pools[0];
    assert p.Valid() && !OverMapped(p);
    if offset < p.Size() {
      var a := PoolsAddr(pools, offset).value;
      assert pools[0].Contains(a);
    } else {
      assert forall i, j :: 0 <= i < j < |pools[1..]| ==>
               pools[1..][i] == pools[i + 1] && pools[1..][j] == pools[j + 1];
      WalkStaysInThePools(pools[1..], offset - p.Size());
      var a := PoolsAddr(pools, offset).value;
      HoldsTail(pools, a);
      var i :| 0 <= i < |pools[1..]| && pools[1..][i].Contains(a);
      assert Apart(pools[0], pools[i + 1]);
    }
  }

  lemma {:induction false} OffsetInPool(pools: seq<Pool>, k: nat, d: nat) returns (offset: nat)
    requires NoneEmpty(pools) && k < |pools| && d < pools[k].Size()
    ensures offset < PoolsSize(pools)
    ensures PoolsAddr(pools, offset) == Some(Canon(pools[k].first.v4, pools[k].first.n + d))
    decreases k
  {
    assert pools[0].Size() > 0;
    SizeIsPositive(pools[1..]);
    if k == 0 { return d; }
    var o := OffsetInPool(pools[1..], k - 1, d);
    return pools[0].Size() + o;
  }

  /** The pool the walk is in at an offset, and how far in it. */
  lemma {:induction false} PoolAtOffset(pools: seq<Pool>, offset: nat) returns (k: nat, d: nat)
    requires offset < PoolsSize(pools)
    ensures k < |pools| && d < pools[k].Size()
    ensures PoolsAddr(pools, offset) == Some(Canon(pools[k].first.v4, pools[k].first.n + d))
  {
    if offset < pools[0].Size() {
      return 0, offset;
    } else {
      k, d := PoolAtOffset(pools[1..], offset - pools[0].Size());
      k := k + 1;
    }
  }

  ghost predicate WalkStays(pools: seq<Pool>) {
    forall offset: nat :: offset < PoolsSize(pools) ==>
      PoolsAddr(pools, offset).Some? && Holds(pools, PoolsAddr(pools, offset).value)
  }

  ghost predicate HoldsAllV4(pools: seq<Pool>) {
    forall n: nat :: n < V4_SIZE ==> Holds(pools, Addr(true, n))
  }

  /** A pool holds the address at each of its offsets, but for the ones a pool going over the mapped addresses meets. */
  lemma PoolHoldsItsOffsets(p: Pool, d: nat)
    requires p.Read() && d < p.Size()
    ensures var a := Canon(p.first.v4, p.first.n + d); p.Contains(a) || (OverMapped(p) && a.v4 && a.n < V4_SIZE)
  {
  }

  /** A pool going over the mapped addresses meets every ipv4 one. */
  lemma WalkMeetsMapped(pools: seq<Pool>, k: nat, n: nat) returns (offset: nat)
    requires NoneEmpty(pools) && k < |pools| && OverMapped(pools[k]) && n < V4_SIZE
    ensures offset < PoolsSize(pools) && PoolsAddr(pools, offset) == Some(Addr(true, n))
  {
    offset := OffsetInPool(pools, k, MAPPED + n - pools[k].first.n);
  }

  /**
   The walk stays in the pools, whatever their families and overlaps, exactly when none of them goes over the mapped
   addresses, or the pools hold every ipv4 address.
   */
  lemma WalkStaysExactly(pools: seq<Pool>)
    requires AllRead(pools) && NoneEmpty(pools)
    ensures WalkStays(pools) <==> NoneOverMapped(pools) || HoldsAllV4(pools)
  {
    if NoneOverMapped(pools) || HoldsAllV4(pools) {
      forall offset: nat | offset < PoolsSize(pools)
        ensures PoolsAddr(pools, offset).Some? && Holds(pools, PoolsAddr(pools, offset).value)
      {
        var k, d := PoolAtOffset(pools, offset);
        assert pools[k] in pools;
        PoolHoldsItsOffsets(pools[k], d);
      }
    } else {
      var p :| p in pools && OverMapped(p);
      var k :| 0 <= k < |pools| && pools[k] == p;
      var n: nat :| n < V4_SIZE && !Holds(pools, Addr(true, n));
      var offset := WalkMeetsMapped(pools, k, n);
    }
  }
}
