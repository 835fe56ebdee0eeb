/**
 The allocator of the addresses of a network on one node (core/ipam/ipam.go), its calls one after the other.

 The store is one file per address naming the key the address is reserved for: a map. Every change of
 the store, in `Reserve`, `FreeAddr` and `Reap`, is recorded in `history`, so that what is said of a call
 is said of every single step of it.
 */
module Allocator {
  import opened Text
  import Maps
  import BigEndian
  import opened Address
  import opened Pools
  import opened PoolLists

  type Key = string
  type Store = map<Addr, Key>

  type Network = n: Net | n.Fits() witness Net(true, 0, 0)

  /** What a network draws from: its range, and the pools in it. */
  datatype Config = Config(range: Option<Network>, pools: seq<Pool>, gateway: Option<Addr>)
  {
    /** Pools, or else the whole of the range. */
    function Drawn(): seq<Pool>
      requires range.Some?
    {
      if pools != [] then pools else [range.value.Subnet()]
    }

    predicate Contains(a: Addr) {
      range.Some? && range.value.Contains(a) && Holds(Drawn(), a)
    }

    predicate Allocatable(a: Addr) {
      && Contains(a)
      && a != range.value.Subnet().first
      && !(a.v4 && a == range.value.Subnet().last)
      && gateway != Some(a)
    }

    /** The range and the pools are as they are read, and the size of the pools is one an offset can be cut to. */
    ghost predicate Valid() {
      range.Some? ==> range.value.Valid() && AllRead(pools) && PoolsSize(Drawn()) != 0
    }
  }

  lemma DrawnIsRead(c: Config)
    requires c.range.Some? && c.Valid()
    ensures AllRead(c.Drawn())
  {
    var net := c.range.value;
    SubnetFits(net.short, net.n, net.ones);
    if !net.short { MixedSubnets(net.n, net.ones); }
  }

  /** An address a resource already holds, and the key it is held for. */
  datatype Claim = Claim(ip: Option<Addr>, key: Key)

  const MAX_PROBES: nat := 4096

  // ---------------------------------------------------------------- the draw

  /** The offset `i` steps after `start`, going round the pools. */
  function Round(start: nat, i: nat, size: nat): nat
    requires start < size && i <= size
  {
    if start + i < size then start + i else start + i - size
  }

  /** Candidate `i` of the walk starting at offset `start`. */
  function Candidate(pools: seq<Pool>, start: nat, i: nat): Option<Addr>
    requires start < PoolsSize(pools) && i <= PoolsSize(pools)
  {
    PoolsAddr(pools, Round(start, i, PoolsSize(pools)))
  }

  predicate Usable(c: Config, taken: set<Addr>, a: Option<Addr>) {
    a.Some? && c.Allocatable(a.value) && a.value !in taken
  }

  function Probes(pools: seq<Pool>): int {
    if PoolsSize(pools) < MAX_PROBES then PoolsSize(pools) else MAX_PROBES
  }

  /** Where a walk may start: at an offset in the pools. A size that is negative leaves no probe. */
  predicate Starts(c: Config, start: nat) {
    c.range.Some? && (PoolsSize(c.Drawn()) > 0 ==> start < PoolsSize(c.Drawn()))
  }

  /** The address drawn from candidate `i` on. */
  function Draw(c: Config, taken: set<Addr>, start: nat, i: nat): Option<Addr>
    requires Starts(c, start)
    decreases Probes(c.Drawn()) - i
  {
    if i >= Probes(c.Drawn()) then None
    else
      var a := Candidate(c.Drawn(), start, i);
      if Usable(c, taken, a) then a else Draw(c, taken, start, i + 1)
  }

  /** A draw finds the first usable candidate, or there is none. */
  lemma {:induction false} DrawIsFirst(c: Config, taken: set<Addr>, start: nat, i: nat) returns (k: nat)
    requires Starts(c, start) && (i == 0 || i <= Probes(c.Drawn()))
    ensures i <= k && (i == k || k <= Probes(c.Drawn()))
    ensures forall j :: i <= j < k ==> !Usable(c, taken, Candidate(c.Drawn(), start, j))
    ensures k < Probes(c.Drawn()) ==>
              Usable(c, taken, Candidate(c.Drawn(), start, k)) &&
                  Draw(c, taken, start, i) == Candidate(c.Drawn(), start, k)
    ensures k >= Probes(c.Drawn()) ==> Draw(c, taken, start, i) == None
    decreases Probes(c.Drawn()) - i
  {
    if i >= Probes(c.Drawn()) || Usable(c, taken, Candidate(c.Drawn(), start, i)) { return i; }
    k := DrawIsFirst(c, taken, start, i + 1);
  }

  lemma DrawNext(c: Config, taken: set<Addr>, start: nat, i: nat)
    requires Starts(c, start) && i < Probes(c.Drawn())
    ensures var a := Candidate(c.Drawn(), start, i);
            Draw(c, taken, start, i) == if Usable(c, taken, a) then a else Draw(c, taken, start, i + 1)
  {
  }

  /** One step more, as the source takes it. */
  lemma NextOffset(offset: nat, size: nat)
    requires offset < size
    ensures (offset + 1) % size == if offset + 1 < size then offset + 1 else 0
  {
  }

  /** The address is in the range and in one of the pools, or in the subnet of the range when there is none. */
  ghost predicate InPools(c: Config, a: Addr)
    requires c.range.Some?
  {
    && c.range.value.Contains(a)
    && (c.pools == [] ==> c.range.value.Subnet().Contains(a))
    && (c.pools != [] ==> exists i :: 0 <= i < |c.pools| && c.pools[i].Contains(a))
  }

  /** It is not the first address of the range, the last of an ipv4 range, nor the gateway. */
  ghost predicate NotReserved(c: Config, a: Addr)
    requires c.range.Some?
  {
    var subnet := c.range.value.Subnet();
    a != subnet.first && (a.v4 ==> a != subnet.last) && (c.gateway.Some? ==> a != c.gateway.value)
  }

  /** When the probes go round the pools, a draw fails only with every address that may be handed out taken. */
  lemma CompleteWalk(c: Config, taken: set<Addr>, start: nat)
    requires c.range.Some? && c.Valid() && NoneEmpty(c.Drawn()) && start < PoolsSize(c.Drawn()) <= 4096
    ensures Draw(c, taken, start, 0) == None
       <==> forall a :: Canonical(a) && InPools(c, a) && NotReserved(c, a) ==> a in taken
  {
    var pools, size := c.Drawn(), PoolsSize(c.Drawn());
    DrawnIsRead(c);
    var k := DrawIsFirst(c, taken, start, 0);
    if Draw(c, taken, start, 0) == None {
      forall a | Canonical(a) && InPools(c, a) && NotReserved(c, a) ensures a in taken {
        assert Holds(pools, a) by { if c.pools == [] { assert pools[0].Contains(a); } }
        WalkMeetsEveryAddress(pools, a);
        var offset := OffsetOf(pools, a);
        var i := if start <= offset then offset - start else size - start + offset;
        assert Candidate(pools, start, i) == Some(a);
      }
    } else {
      var a := Draw(c, taken, start, 0).value;
      WalkIsCanonical(pools, Round(start, k, size));
      AllocatableIs(c, a);
    }
  }

  lemma AllocatableIs(c: Config, a: Addr)
    requires c.range.Some?
    ensures c.Allocatable(a) <==> InPools(c, a) && NotReserved(c, a)
    ensures c.Contains(a) <==> InPools(c, a)
  {
    if c.pools == [] { assert c.Drawn()[0] == c.range.value.Subnet(); }
  }

  lemma {:induction false} WalkIsCanonical(pools: seq<Pool>, offset: nat)
    requires AllRead(pools) && PoolsAddr(pools, offset).Some?
    ensures Canonical(PoolsAddr(pools, offset).value)
  {
    assert pools[0].Read();
    if offset >= pools[0].Size() { WalkIsCanonical(pools[1..], offset - pools[0].Size()); }
  }

  /** The address a draw finds is one it may hand out, and no one holds. */
  lemma DrawIsUsable(c: Config, taken: set<Addr>, start: nat)
    requires Starts(c, start) && c.Valid()
    ensures var a := Draw(c, taken, start, 0);
            a.Some? ==> c.Allocatable(a.value) && a.value !in taken && Canonical(a.value)
  {
    DrawnIsRead(c);
    var k := DrawIsFirst(c, taken, start, 0);
    var a := Draw(c, taken, start, 0);
    if a.Some? { WalkIsCanonical(c.Drawn(), Round(start, k, PoolsSize(c.Drawn()))); }
  }

  /** What a key drew it draws again, while it is free and what was taken still is, whatever else is taken since. */
  lemma StableDraw(c: Config, taken: set<Addr>, later: set<Addr>, start: nat)
    requires Starts(c, start)
    requires var a := Draw(c, taken, start, 0); a.Some? && a.value !in later
    requires forall a :: a in taken && c.Contains(a) ==> a in later
    ensures Draw(c, later, start, 0) == Draw(c, taken, start, 0)
  {
    var k := DrawIsFirst(c, taken, start, 0);
    var m := DrawIsFirst(c, later, start, 0);
    assert Usable(c, later, Candidate(c.Drawn(), start, k));
  }

  // ---------------------------------------------------------------- what the calls do to the store

  ghost predicate HoldsOne(s: Store, key: Key) {
    exists a :: a in s && s[a] == key
  }

  /** The key holds an address the ranges hold. */
  ghost predicate HoldsIn(c: Config, s: Store, key: Key) {
    exists a :: a in s && s[a] == key && c.Contains(a)
  }

  /** The store once the key gave up the addresses `drop` says. */
  ghost function Dropped(s: Store, key: Key, drop: Addr -> bool): Store {
    map a | a in s && !(s[a] == key && drop(a)) :: s[a]
  }

  ghost function DropStaleStore(c: Config, s: Store, key: Key): Store {
    if HoldsIn(c, s, key) then Dropped(s, key, a => !c.Contains(a)) else s
  }

  ghost function KeepStore(s: Store, a: Addr, key: Key): Store {
    if a in s && (s[a] != key || key == "") then s else Dropped(s[a := key], key, b => b != a)
  }

  /** The addresses out of the ranges whose key holds one in them. */
  ghost function Replaced(c: Config, s: Store): set<Addr> {
    set a | a in s && s[a] != "" && !c.Contains(a) && HoldsIn(c, s, s[a])
  }

  ghost function StaleOf(c: Config, s: Store, among: set<Addr>, key: Key): set<Addr> {
    set a | a in among && a in s && s[a] == key && !c.Contains(a)
  }

  ghost function Gone(alive: Key -> bool, s: Store): set<Addr> {
    set a | a in s && s[a] != "" && !alive(s[a])
  }

  /** The address drawn by a key holding none in the ranges. */
  ghost function DrawFor(hash: Key -> nat, c: Config, s: Store, others: set<Addr>, key: Key): Option<Addr>
    requires c.range.Some? && c.Valid()
  {
    Draw(c, s.Keys + others, hash(key) % PoolsSize(c.Drawn()), 0)
  }

  ghost function AllocateStore(hash: Key -> nat, c: Config, s: Store, others: set<Addr>, key: Key): Store
    requires c.Valid()
  {
    if c.range.None? || HoldsIn(c, s, key) then s
    else
      match DrawFor(hash, c, s, others, key)
      case None => s
      case Some(a) => DropStaleStore(c, s[a := key], key)
  }

  // ---------------------------------------------------------------- the steps of a call

  ghost predicate SubStore(a: Store, b: Store) {
    forall x :: x in a ==> x in b && b[x] == a[x]
  }

  /** None of the steps from `n` on lost what the end of the call holds. */
  ghost predicate StepsAbove(end: Store, steps: seq<Store>, n: nat) {
    forall i :: n <= i < |steps| ==> SubStore(end, steps[i])
  }

  /** At every step from `n` on, a key that held an address before the call still holds one. */
  ghost predicate NeverLeftWithout(before: Store, steps: seq<Store>, n: nat) {
    forall i, key :: n <= i < |steps| && HoldsOne(before, key) ==> HoldsOne(steps[i], key)
  }

  lemma AboveIsNeverWithout(before: Store, end: Store, steps: seq<Store>, n: nat)
    requires StepsAbove(end, steps, n)
    requires forall key :: HoldsOne(before, key) ==> HoldsOne(end, key)
    ensures NeverLeftWithout(before, steps, n)
  {
    forall i, key | n <= i < |steps| && HoldsOne(before, key) ensures HoldsOne(steps[i], key) {
      var a :| a in end && end[a] == key;
      assert SubStore(end, steps[i]);
      assert a in steps[i] && steps[i][a] == key;
    }
  }

  lemma DropStaleHolders(c: Config, s: Store, key: Key, k: Key)
    requires HoldsOne(s, k)
    ensures HoldsOne(DropStaleStore(c, s, key), k)
  {
    var a :| a in s && s[a] == k;
    if HoldsIn(c, s, key) {
      var e := Dropped(s, key, a => !c.Contains(a));
      if k == key {
        var b :| b in s && s[b] == key && c.Contains(b);
        assert b in e && e[b] == k;
      } else {
        assert a in e && e[a] == k;
      }
    }
  }

  lemma KeepHolders(s: Store, a: Addr, key: Key, k: Key)
    requires HoldsOne(s, k)
    ensures HoldsOne(KeepStore(s, a, key), k)
  {
    var e := KeepStore(s, a, key);
    var x :| x in s && s[x] == k;
    if !(a in s && s[a] != key) {
      if k == key { assert a in e && e[a] == k; } else { assert x in e && e[x] == k; }
    }
  }

  lemma ReplacedHolders(c: Config, s: Store, k: Key)
    requires HoldsOne(s, k)
    ensures HoldsOne(s - Replaced(c, s), k)
  {
    var e := s - Replaced(c, s);
    var x :| x in s && s[x] == k;
    if x in Replaced(c, s) {
      var b :| b in s && s[b] == k && c.Contains(b);
      assert b in e && e[b] == k;
    } else {
      assert x in e && e[x] == k;
    }
  }

  /** What is left once a key got an address in place of the ones out of the pools. */
  lemma ReplacedStore(c: Config, s: Store, a: Addr, key: Key)
    requires c.range.Some? && a !in s && c.Contains(a)
    ensures var t := DropStaleStore(c, s[a := key], key);
            && (forall x :: x in t <==> x == a || (x in s && (s[x] != key || InPools(c, x))))
            && (forall x :: x in t ==> t[x] == if x == a then key else s[x])
  {
    var u := s[a := key];
    assert u[a] == key && a in u;
    assert HoldsIn(c, u, key);
    forall x ensures c.Contains(x) <==> InPools(c, x) { AllocatableIs(c, x); }
  }

  /** The address is of a key that holds another one in the ranges, and is out of them. */
  ghost predicate IsReplaced(c: Config, s: Store, a: Addr)
    requires a in s
  {
    s[a] != "" && !c.Contains(a) && exists b :: b in s && s[b] == s[a] && c.Contains(b)
  }

  lemma ReplacedIs(c: Config, s: Store, a: Addr)
    requires a in s
    ensures a in Replaced(c, s) <==> IsReplaced(c, s, a)
  {
  }

  lemma SizeWithout(s: Store, gone: set<Addr>)
    requires gone <= s.Keys
    ensures |s - gone| == |s| - |gone|
  {
    assert s.Keys == (s - gone).Keys + gone;
  }

  /** The addresses replaced whose key is not one of `keys`. */
  ghost function ReplacedOf(c: Config, s: Store, keys: set<Key>): set<Addr> {
    set a | a in Replaced(c, s) && s[a] !in keys
  }

  lemma ReplacedOfNext(c: Config, s: Store, keys: set<Key>, key: Key)
    requires key in keys && key != ""
    ensures var more := if HoldsIn(c, s, key) then StaleOf(c, s, s.Keys, key) else {};
            ReplacedOf(c, s, keys - {key}) == ReplacedOf(c, s, keys) + more && ReplacedOf(c, s, keys) !! more
  {
  }

  lemma ReplacedNeverWithout(c: Config, s: Store, steps: seq<Store>, n: nat)
    requires StepsAbove(s - Replaced(c, s), steps, n)
    ensures NeverLeftWithout(s, steps, n)
  {
    forall k | HoldsOne(s, k) ensures HoldsOne(s - Replaced(c, s), k) { ReplacedHolders(c, s, k); }
    AboveIsNeverWithout(s, s - Replaced(c, s), steps, n);
  }

  // ---------------------------------------------------------------- the allocator

  class Allocator {
    var store: Store
    ghost var history: seq<Store>
    const hash: Key -> nat

    constructor (hash: Key -> nat)
      ensures store == map[] && history == [] && this.hash == hash
    {
      store, history := map[], [];
      this.hash := hash;
    }

    /** Creates the reservation of an address, unless there is one. */
    method Reserve(a: Addr, key: Key) returns (ok: bool)
      modifies this`store, this`history
      ensures ok <==> a !in old(store)
      ensures store == if ok then old(store)[a := key] else old(store)
      ensures history == old(history) + [store]
    {
      ok := a !in store;
      if ok {
        store := store[a := key];
      }
      history := history + [store];
    }

    /** Releases an address, when the key is the one holding it. */
    method FreeAddr(a: Addr, key: Key)
      modifies this`store, this`history
      ensures store == if a in old(store) && old(store)[a] == key then old(store) - {a} else old(store)
      ensures history == old(history) + [store]
    {
      if a in store && store[a] == key {
        store := store - {a};
      }
      history := history + [store];
    }

    /** The address the key holds, one in the ranges when it holds one. */
    method Allocated(c: Config, key: Key) returns (r: Option<Addr>)
      ensures r.Some? ==> r.value in store && store[r.value] == key
      ensures r.None? ==> !HoldsOne(store, key)
      ensures c.range.Some? && HoldsIn(c, store, key) ==> r.Some? && c.Contains(r.value)
    {
      r := None;
      var entries := store.Keys;
      while entries != {}
        invariant entries <= store.Keys
        invariant r.Some? ==> r.value in store && store[r.value] == key
        invariant r.None? ==> forall a :: a in store && a !in entries ==> store[a] != key
        invariant forall a :: a in store && a !in entries && store[a] == key ==> c.range.Some? && !c.Contains(a)
        decreases entries
      {
        var a :| a in entries;
        entries := entries - {a};
        if store[a] != key {
          continue;
        } else if c.range.None? || c.Contains(a) {
          return Some(a);
        } else if r.None? {
          r := Some(a);
        }
      }
    }

    /** Releases the addresses the key holds that `drop` says to. */
    method FreeHeld(key: Key, drop: Addr -> bool)
      modifies this`store, this`history
      ensures store == Dropped(old(store), key, drop)
      ensures old(history) <= history && StepsAbove(store, history, |old(history)|)
    {
      ghost var end := Dropped(store, key, drop);
      var entries := store.Keys;
      while entries != {}
        invariant entries <= old(store).Keys
        invariant store == map a | a in old(store) && (a in entries || !(old(store)[a] == key && drop(a))) ::
                  old(store)[a]
        invariant old(history) <= history && StepsAbove(end, history, |old(history)|)
        decreases entries
      {
        var a :| a in entries;
        entries := entries - {a};
        if !drop(a) {
          continue;
        }
        FreeAddr(a, key);
      }
    }

    method Free(key: Key)
      modifies this`store, this`history
      ensures store == Apply(hash, old(store), Call.Free(key))
      ensures forall a :: a in store <==> a in old(store) && old(store)[a] != key
      ensures SubStore(store, old(store))
    {
      FreeHeld(key, a => true);
    }

    method DropStale(c: Config, key: Key)
      modifies this`store, this`history
      ensures store == Apply(hash, old(store), Call.DropStale(c, key))
      ensures SubStore(store, old(store))
      ensures var replaced := exists b :: b in old(store) && old(store)[b] == key && c.Contains(b);
              forall a :: a in store <==> a in old(store) && !(replaced && old(store)[a] == key && !c.Contains(a))
      ensures old(history) <= history && StepsAbove(store, history, |old(history)|)
      ensures NeverLeftWithout(old(store), history, |old(history)|)
    {
      var a := Allocated(c, key);
      if a.Some? && c.Contains(a.value) {
        FreeHeld(key, a => !c.Contains(a));
      }
      forall k | HoldsOne(old(store), k) ensures HoldsOne(store, k) { DropStaleHolders(c, old(store), key, k); }
      AboveIsNeverWithout(old(store), store, history, |old(history)|);
    }

    /** Reserves an address for the key, and releases the others it holds. A file with no key in it is no one's. */
    method Keep(a: Addr, key: Key) returns (ok: bool)
      modifies this`store, this`history
      ensures ok <==> a !in old(store) || (old(store)[a] == key && key != "")
      ensures store == Apply(hash, old(store), Call.Keep(a, key))
      ensures !ok ==> store == old(store)
      ensures ok ==> forall b :: b in store <==> b == a || (b in old(store) && old(store)[b] != key)
      ensures ok ==> forall b :: b in store ==> store[b] == if b == a then key else old(store)[b]
      ensures old(history) <= history && NeverLeftWithout(old(store), history, |old(history)|)
    {
      var held := if a in store then store[a] else "";
      if held != "" && held != key {
        return false;
      } else if held == "" {
        ok := Reserve(a, key);
        if !ok {
          AboveIsNeverWithout(old(store), store, history, |old(history)|);
          return false;
        }
      }
      FreeHeld(key, b => b != a);
      assert store == KeepStore(old(store), a, key);
      forall k | HoldsOne(old(store), k) ensures HoldsOne(store, k) { KeepHolders(old(store), a, key, k); }
      AboveIsNeverWithout(old(store), store, history, |old(history)|);
      ok := true;
    }

    /** The address reserved for the key, drawn when it holds none in the ranges. */
    method Allocate(c: Config, others: set<Addr>, key: Key) returns (r: Option<Addr>)
      requires c.Valid()
      modifies this`store, this`history
      ensures store == Apply(hash, old(store), Call.Allocate(c, others, key))
      ensures r.None?
              <==> c.range.None? || (!HoldsIn(c, old(store), key) && DrawFor(hash, c, old(store), others, key).None?)
      ensures r.Some? ==> r.value in store && store[r.value] == key && c.Contains(r.value)
      ensures r.Some? && !HoldsIn(c, old(store), key) ==> r == DrawFor(hash, c, old(store), others, key)
      ensures r.None? || r.value in old(store) ==> store == old(store)
      ensures r.Some? && r.value !in old(store) ==>
                && InPools(c, r.value) && r.value != c.range.value.Subnet().first && c.gateway != r
                && (r.value.v4 ==> r.value != c.range.value.Subnet().last) && r.value !in others
      ensures r.Some? && r.value !in old(store) ==>
                && (forall a :: a in store <==>
                      a == r.value || (a in old(store) && (old(store)[a] != key || InPools(c, a))))
                && (forall a :: a in store ==> store[a] == if a == r.value then key else old(store)[a])
      ensures old(history) <= history && NeverLeftWithout(old(store), history, |old(history)|)
    {
      if c.range.None? {
        return None;
      }
      var stale := Allocated(c, key);
      if stale.Some? && c.Contains(stale.value) {
        return stale;
      }
      var size := SizeOf(c.Drawn());
      var taken := store.Keys + others;
      assert taken + store.Keys == taken;
      r := Walk(c, taken, hash(key) % size, key);
      if r.Some? {
        Replace(c, r.value, key, stale.Some?, old(store), |old(history)|);
        DrawIsUsable(c, taken, hash(key) % size);
        AllocatableIs(c, r.value);
        ReplacedStore(c, old(store), r.value, key);
      }
    }

    /** With the address reserved, the ones it replaces are given up. */
    method Replace(c: Config, a: Addr, key: Key, replacing: bool, ghost before: Store, ghost n: nat)
      requires a !in before && store == before[a := key] && c.Contains(a)
      requires replacing <==> HoldsOne(before, key)
      requires n <= |history| && NeverLeftWithout(before, history, n)
      modifies this`store, this`history
      ensures store == DropStaleStore(c, before[a := key], key) && a in store && store[a] == key
      ensures old(history) <= history && NeverLeftWithout(before, history, n)
    {
      ghost var held := store;
      assert held[a] == key;
      if replacing {
        DropStale(c, key);
        forall i, k | n <= i < |history| && HoldsOne(before, k) ensures HoldsOne(history[i], k) {
          if i < |old(history)| {
            assert HoldsOne(old(history)[i], k);
          } else {
            var x :| x in before && before[x] == k;
            assert x in held && held[x] == k;
            assert HoldsOne(held, k);
          }
        }
      } else {
        assert store == Dropped(held, key, a => !c.Contains(a));
      }
    }

    /**
     The walk: the first usable candidate that can be reserved. What was taken when it was looked at may be less
     than what the store holds now, as other calls reserve meanwhile: such a candidate is passed over.
     */
    method Walk(c: Config, taken: set<Addr>, start: nat, key: Key) returns (r: Option<Addr>)
      requires Starts(c, start) && c.Valid()
      modifies this`store, this`history
      ensures r == Draw(c, taken + old(store).Keys, start, 0)
      ensures r.Some? ==> r.value !in old(store) && c.Contains(r.value)
      ensures store == if r.Some? then old(store)[r.value := key] else old(store)
      ensures old(history) <= history && StepsAbove(old(store), history, |old(history)|)
      ensures NeverLeftWithout(old(store), history, |old(history)|)
    {
      var pools := c.Drawn();
      var size := SizeOf(pools);
      var offset := start;
      var probes := if size < MAX_PROBES then size else MAX_PROBES;
      ghost var all := taken + store.Keys;
      DrawnIsRead(c);
      var i := 0;
      while i < probes
        invariant 0 <= i && (i == 0 || i <= probes)
        invariant size > 0 ==> offset == Round(start, i, size)
        invariant Draw(c, all, start, 0) == Draw(c, all, start, i)
        invariant store == old(store)
        invariant old(history) <= history && StepsAbove(old(store), history, |old(history)|)
      {
        var ip := AddrAt(pools, offset);
        DrawNext(c, all, start, i);
        if ip.Some? && c.Allocatable(AddrOf(ip.value)) && AddrOf(ip.value) !in taken {
          var ok := Reserve(AddrOf(ip.value), key);
          if ok {
            AboveIsNeverWithout(old(store), old(store), history, |old(history)|);
            return Some(AddrOf(ip.value));
          }
        }
        NextOffset(offset, size);
        offset := (offset + 1) % size;
        i := i + 1;
      }
      AboveIsNeverWithout(old(store), old(store), history, |old(history)|);
      return None;
    }

    /** Records the addresses resources already hold, and counts the ones recorded. */
    method Adopt(c: Config, l: seq<Claim>) returns (n: nat)
      modifies this`store, this`history
      ensures store == AdoptAll(c, old(store), l) && n == |store| - |old(store)|
      ensures old(history) <= history && StepsAbove(old(store), history, |old(history)|)
    {
      n := 0;
      for i := 0 to |l|
        invariant store == AdoptAll(c, old(store), l[..i]) && n == |store| - |old(store)|
        invariant SubStore(old(store), store)
        invariant old(history) <= history && StepsAbove(old(store), history, |old(history)|)
      {
        assert l[..i + 1][..i] == l[..i];
        if l[i].ip.None? || l[i].key == "" {
          continue;
        }
        if c.range.Some? && !c.Contains(l[i].ip.value) {
          continue;
        }
        var ok := Reserve(l[i].ip.value, l[i].key);
        if ok {
          n := n + 1;
        }
      }
      assert l[..|l|] == l;
    }

    /** The keys holding an address in the ranges, and the addresses out of them by key. */
    method Split(c: Config) returns (current: set<Key>, stale: map<Key, set<Addr>>)
      ensures forall k :: k in current <==> k != "" && HoldsIn(c, store, k)
      ensures forall k :: k in stale ==> k != "" && stale[k] == StaleOf(c, store, store.Keys, k)
      ensures forall a :: a in store && store[a] != "" && !c.Contains(a) ==> store[a] in stale
    {
      current, stale := {}, map[];
      var entries := store.Keys;
      while entries != {}
        invariant entries <= store.Keys
        invariant forall k :: k in current ==> k != "" && HoldsIn(c, store, k)
        invariant forall a :: a in store && a !in entries && store[a] != "" && c.Contains(a) ==> store[a] in current
        invariant forall k :: k in stale ==> k != "" && stale[k] == StaleOf(c, store, store.Keys - entries, k)
        invariant forall a :: a in store && a !in entries && store[a] != "" && !c.Contains(a) ==> store[a] in stale
        decreases entries
      {
        var a :| a in entries;
        entries := entries - {a};
        var key := store[a];
        if key == "" {
        } else if c.Contains(a) {
          current := current + {key};
        } else {
          stale := stale[key := (if key in stale then stale[key] else {}) + {a}];
        }
      }
      assert store.Keys - entries == store.Keys;
    }

    /** Releases addresses the key holds, and counts them: more of `all`, with `done` of them released before. */
    method FreeAll(ips: set<Addr>, key: Key, ghost before: Store, ghost done: set<Addr>,
                   ghost all: set<Addr>) returns (n: nat)
      requires store == before - done && done !! ips && done + ips <= all
      requires forall a :: a in ips ==> a in before && before[a] == key
      modifies this`store, this`history
      ensures store == before - (done + ips) && n == |ips|
      ensures old(history) <= history && StepsAbove(before - all, history, |old(history)|)
    {
      n := 0;
      var left := ips;
      ghost var gone := done;
      while left != {}
        invariant left <= ips && n == |ips| - |left|
        invariant left !! gone && gone + left == done + ips && store == before - gone
        invariant old(history) <= history && StepsAbove(before - all, history, |old(history)|)
        decreases left
      {
        var a :| a in left;
        Maps.TakeOneMore(before, gone, a);
        FreeAddr(a, key);
        left := left - {a};
        gone := gone + {a};
        n := n + 1;
      }
      assert gone == done + ips;
    }

    /** Releases the addresses out of the ranges of the keys holding one in them, and counts them. */
    method DropReplaced(c: Config) returns (n: nat)
      modifies this`store, this`history
      ensures store == Apply(hash, old(store), Call.DropReplaced(c)) && n == |old(store)| - |store|
      ensures SubStore(store, old(store))
      ensures forall a :: a in old(store) ==> (a in store <==> !IsReplaced(c, old(store), a))
      ensures old(history) <= history && NeverLeftWithout(old(store), history, |old(history)|)
    {
      var current, stale := Split(c);
      n := FreeStale(c, current, stale);
      SizeWithout(old(store), Replaced(c, old(store)));
      ReplacedNeverWithout(c, old(store), history, |old(history)|);
      forall a | a in old(store) ensures a in store <==> !IsReplaced(c, old(store), a) {
        ReplacedIs(c, old(store), a);
      }
    }

    /** The second pass: the addresses out of the ranges released, key by key, of the keys with one in them. */
    method FreeStale(c: Config, current: set<Key>, stale: map<Key, set<Addr>>) returns (n: nat)
      requires forall k :: k in current <==> k != "" && HoldsIn(c, store, k)
      requires forall k :: k in stale ==> k != "" && stale[k] == StaleOf(c, store, store.Keys, k)
      requires forall a :: a in store && store[a] != "" && !c.Contains(a) ==> store[a] in stale
      modifies this`store, this`history
      ensures store == old(store) - Replaced(c, old(store)) && n == |Replaced(c, old(store))|
      ensures old(history) <= history
      ensures StepsAbove(old(store) - Replaced(c, old(store)), history, |old(history)|)
    {
      ghost var before := store;
      ghost var all := Replaced(c, before);
      n := 0;
      var keys := stale.Keys;
      ghost var done := ReplacedOf(c, before, keys);
      assert done == {};
      while keys != {}
        invariant keys <= stale.Keys && done == ReplacedOf(c, before, keys)
        invariant store == before - done && n == |done|
        invariant old(history) <= history && StepsAbove(before - all, history, |old(history)|)
        decreases keys
      {
        var key :| key in keys;
        ReplacedOfNext(c, before, keys, key);
        keys := keys - {key};
        if key in current {
          var k := FreeAll(stale[key], key, before, done, all);
          n := n + k;
          done := done + stale[key];
        }
      }
      assert done == all;
    }

    /** Releases the reservations of the keys that no longer exist, and counts them. */
    method Reap(alive: Key -> bool) returns (n: nat)
      modifies this`store, this`history
      ensures store == Apply(hash, old(store), Call.Reap(alive)) && n == |old(store)| - |store|
      ensures forall a :: a in store <==> a in old(store) && (old(store)[a] == "" || alive(old(store)[a]))
    {
      ghost var gone := Gone(alive, store);
      n := RemoveGone(alive, gone);
      SizeWithout(old(store), gone);
    }

    /** The loop of Reap. */
    method RemoveGone(alive: Key -> bool, ghost gone: set<Addr>) returns (n: nat)
      requires gone <= store.Keys && forall a :: a in store ==> (a in gone <==> store[a] != "" && !alive(store[a]))
      modifies this`store, this`history
      ensures store == old(store) - gone && n == |gone|
    {
      n := 0;
      var entries := store.Keys;
      ghost var done: set<Addr> := {};
      while entries != {}
        invariant entries <= old(store).Keys && done <= gone
        invariant store == old(store) - done && n == |done|
        invariant forall a :: a in gone ==> (a in done <==> a !in entries)
        decreases entries
      {
        var a :| a in entries;
        entries := entries - {a};
        var key := store[a];
        if key == "" || alive(key) {
          continue;
        }
        store := store - {a};
        history := history + [store];
        done := done + {a};
        n := n + 1;
      }
      assert done == gone;
    }
  }

  // ---------------------------------------------------------------- whole runs

  /** A call, with the ranges as they are when it runs and what the peers hold then. */
  datatype Call =
    | Allocate(c: Config, others: set<Addr>, key: Key)
    | Free(key: Key)
    | Keep(a: Addr, key: Key)
    | DropStale(c: Config, key: Key)
    | DropReplaced(c: Config)
    | Reap(alive: Key -> bool)

  ghost predicate Legal(call: Call) {
    call.Allocate? ==> call.c.Valid()
  }

  ghost function Apply(hash: Key -> nat, s: Store, call: Call): Store
    requires Legal(call)
  {
    match call
    case Allocate(c, others, key) => AllocateStore(hash, c, s, others, key)
    case Free(key) => Dropped(s, key, a => true)
    case Keep(a, key) => KeepStore(s, a, key)
    case DropStale(c, key) => DropStaleStore(c, s, key)
    case DropReplaced(c) => s - Replaced(c, s)
    case Reap(alive) => s - Gone(alive, s)
  }

  ghost function Run(hash: Key -> nat, calls: seq<Call>): Store
    requires forall i :: 0 <= i < |calls| ==> Legal(calls[i])
  {
    if calls == [] then map[] else Apply(hash, Run(hash, calls[..|calls| - 1]), calls[|calls| - 1])
  }

  ghost predicate AtMostOne(s: Store) {
    forall a, b :: a in s && b in s && s[a] == s[b] ==> a == b
  }

  lemma SubStoreAtMostOne(a: Store, b: Store)
    requires SubStore(a, b) && AtMostOne(b)
    ensures AtMostOne(a)
  {
  }

  lemma AllocateAtMostOne(hash: Key -> nat, c: Config, s: Store, others: set<Addr>, key: Key)
    requires c.Valid() && AtMostOne(s)
    ensures AtMostOne(AllocateStore(hash, c, s, others, key))
  {
    if c.range.Some? && !HoldsIn(c, s, key) {
      match DrawFor(hash, c, s, others, key)
      case None =>
      case Some(a) =>
        DrawIsUsable(c, s.Keys + others, hash(key) % PoolsSize(c.Drawn()));
        var t := s[a := key];
        assert a in t && t[a] == key && c.Contains(a);
        assert HoldsIn(c, t, key);
    }
  }

  lemma CallKeepsAtMostOne(hash: Key -> nat, s: Store, call: Call)
    requires Legal(call) && AtMostOne(s)
    ensures AtMostOne(Apply(hash, s, call))
  {
    if call.Allocate? {
      AllocateAtMostOne(hash, call.c, s, call.others, call.key);
    } else if !call.Keep? {
      SubStoreAtMostOne(Apply(hash, s, call), s);
    }
  }

  /** Whatever the calls, and however the ranges change between them, each key holds at most one address. */
  lemma {:induction false} RunKeepsAtMostOne(hash: Key -> nat, calls: seq<Call>)
    requires forall i :: 0 <= i < |calls| ==> Legal(calls[i])
    ensures AtMostOne(Run(hash, calls))
  {
    if calls == [] {
    } else {
      var n := |calls| - 1;
      RunKeepsAtMostOne(hash, calls[..n]);
      CallKeepsAtMostOne(hash, Run(hash, calls[..n]), calls[n]);
    }
  }

  // ---------------------------------------------------------------- adoptions

  /** The adoption looks at the claim. */
  predicate Adoptable(c: Config, claim: Claim) {
    claim.ip.Some? && claim.key != "" && (c.range.Some? ==> c.Contains(claim.ip.value))
  }

  ghost function AdoptOne(c: Config, s: Store, claim: Claim): Store {
    if Adoptable(c, claim) && claim.ip.value !in s then s[claim.ip.value := claim.key] else s
  }

  ghost function AdoptAll(c: Config, s: Store, l: seq<Claim>): Store {
    if l == [] then s else AdoptOne(c, AdoptAll(c, s, l[..|l| - 1]), l[|l| - 1])
  }

  /** Claim `i` is recorded: its address is not reserved, and no claim before it took it. */
  ghost predicate Recorded(c: Config, s: Store, l: seq<Claim>, i: int) {
    && 0 <= i < |l| && Adoptable(c, l[i]) && l[i].ip.value !in s
    && forall j :: 0 <= j < i && Adoptable(c, l[j]) ==> l[j].ip != l[i].ip
  }

  /** The address is the one of a claim recorded with this key. */
  ghost predicate RecordedAs(c: Config, s: Store, l: seq<Claim>, a: Addr, key: Key) {
    exists i :: Recorded(c, s, l, i) && l[i].ip == Some(a) && l[i].key == key
  }

  /** A claim recorded: an address in the ranges, if there is one, free and not claimed before, and some key. */
  lemma RecordedIs(c: Config, s: Store, l: seq<Claim>, i: nat)
    requires i < |l|
    ensures Recorded(c, s, l, i) <==>
            && ToRecord(c, l[i]) && l[i].ip.value !in s
            && forall j :: 0 <= j < i && l[j].ip == l[i].ip ==> l[j].key == ""
  {
    forall claim: Claim ensures Adoptable(c, claim) <==> ToRecord(c, claim) { AdoptableIs(c, claim); }
  }

  lemma AdoptableIs(c: Config, claim: Claim)
    ensures Adoptable(c, claim) <==> ToRecord(c, claim)
  {
    if c.range.Some? && claim.ip.Some? { AllocatableIs(c, claim.ip.value); }
  }

  /** The claim has an address and a key, and the address is in the ranges, for a network with a range. */
  ghost predicate ToRecord(c: Config, claim: Claim) {
    claim.ip.Some? && claim.key != "" && (c.range.Some? ==> InPools(c, claim.ip.value))
  }

  lemma RecordedMore(c: Config, s: Store, l: seq<Claim>, more: Claim, a: Addr, key: Key)
    requires RecordedAs(c, s, l, a, key)
    ensures RecordedAs(c, s, l + [more], a, key)
  {
    var i :| Recorded(c, s, l, i) && l[i].ip == Some(a) && l[i].key == key;
    assert Recorded(c, s, l + [more], i);
  }

  lemma RecordedLast(c: Config, s: Store, l: seq<Claim>, last: Claim)
    requires Adoptable(c, last) && last.ip.value !in s
    requires forall i :: 0 <= i < |l| && Adoptable(c, l[i]) ==> l[i].ip != last.ip
    ensures RecordedAs(c, s, l + [last], last.ip.value, last.key)
  {
    assert Recorded(c, s, l + [last], |l|);
  }

  /** An adoption leaves every reservation alone, and every claim it looks at is reserved after it. */
  lemma {:induction false} AdoptionReserves(c: Config, s: Store, l: seq<Claim>)
    ensures SubStore(s, AdoptAll(c, s, l))
    ensures forall i :: 0 <= i < |l| && Adoptable(c, l[i]) ==> l[i].ip.value in AdoptAll(c, s, l)
  {
    if l == [] {
    } else {
      var n := |l| - 1;
      AdoptionReserves(c, s, l[..n]);
      assert forall i :: 0 <= i < n ==> l[..n][i] == l[i];
    }
  }

  /** What it adds is the claims recorded. */
  lemma {:induction false} AdoptionAdds(c: Config, s: Store, l: seq<Claim>, a: Addr)
    requires a in AdoptAll(c, s, l) && a !in s
    ensures RecordedAs(c, s, l, a, AdoptAll(c, s, l)[a])
  {
    var n := |l| - 1;
    var init, last := l[..n], l[n];
    assert l == init + [last];
    var t := AdoptAll(c, s, init);
    if a in t {
      AdoptionAdds(c, s, init, a);
      RecordedMore(c, s, init, last, a, t[a]);
    } else {
      AdoptionReserves(c, s, init);
      RecordedLast(c, s, init, last);
    }
  }

  lemma RecordedIsHeld(c: Config, s: Store, l: seq<Claim>, i: int)
    requires Recorded(c, s, l, i)
    ensures l[i].ip.value in AdoptAll(c, s, l) && AdoptAll(c, s, l)[l[i].ip.value] == l[i].key
  {
    var t, a := AdoptAll(c, s, l), l[i].ip.value;
    AdoptionReserves(c, s, l);
    AdoptionAdds(c, s, l, a);
    var k :| Recorded(c, s, l, k) && l[k].ip == Some(a) && l[k].key == t[a];
    assert i == k;
  }

  /** No claim recorded is for a key that holds an address, in the store or by a claim recorded before. */
  ghost predicate OneClaimAKey(c: Config, s: Store, l: seq<Claim>) {
    && (forall i :: Recorded(c, s, l, i) ==> !HoldsOne(s, l[i].key))
    && (forall i, j :: i < j && Recorded(c, s, l, i) && Recorded(c, s, l, j) ==> l[i].key != l[j].key)
  }

  /** An adoption keeps a key at one address exactly when no claim it records is for a key that has one already. */
  lemma AdoptionKeepsAtMostOne(c: Config, s: Store, l: seq<Claim>)
    requires AtMostOne(s)
    ensures AtMostOne(AdoptAll(c, s, l)) <==> OneClaimAKey(c, s, l)
  {
    var t := AdoptAll(c, s, l);
    AdoptionReserves(c, s, l);
    if AtMostOne(t) {
      forall i | Recorded(c, s, l, i) ensures !HoldsOne(s, l[i].key) {
        RecordedIsHeld(c, s, l, i);
      }
      forall i, j | i < j && Recorded(c, s, l, i) && Recorded(c, s, l, j) ensures l[i].key != l[j].key {
        RecordedIsHeld(c, s, l, i);
        RecordedIsHeld(c, s, l, j);
      }
    }
    if OneClaimAKey(c, s, l) {
      forall a, b | a in t && b in t && t[a] == t[b] ensures a == b { ClaimsApart(c, s, l, a, b); }
    }
  }

  lemma NewKeyIsNotHeld(c: Config, s: Store, l: seq<Claim>, a: Addr)
    requires OneClaimAKey(c, s, l) && a in AdoptAll(c, s, l) && a !in s
    ensures !HoldsOne(s, AdoptAll(c, s, l)[a])
  {
    AdoptionAdds(c, s, l, a);
  }

  lemma ClaimsApart(c: Config, s: Store, l: seq<Claim>, a: Addr, b: Addr)
    requires AtMostOne(s) && OneClaimAKey(c, s, l)
    requires var t := AdoptAll(c, s, l); a in t && b in t && t[a] == t[b]
    ensures a == b
  {
    var t := AdoptAll(c, s, l);
    AdoptionReserves(c, s, l);
    if a !in s {
      NewKeyIsNotHeld(c, s, l, a);
      assert b !in s;
      AdoptionAdds(c, s, l, a);
      AdoptionAdds(c, s, l, b);
      var i :| Recorded(c, s, l, i) && l[i].ip == Some(a) && l[i].key == t[a];
      var j :| Recorded(c, s, l, j) && l[j].ip == Some(b) && l[j].key == t[b];
    } else if b !in s {
      NewKeyIsNotHeld(c, s, l, b);
    }
  }

  lemma {:induction false} NothingToAdopt(c: Config, s: Store, l: seq<Claim>)
    requires forall i :: 0 <= i < |l| && Adoptable(c, l[i]) ==> l[i].ip.value in s
    ensures AdoptAll(c, s, l) == s
  {
    if l == [] {
    } else {
      NothingToAdopt(c, s, l[..|l| - 1]);
    }
  }

  /** An adoption run twice changes nothing the second time, whatever was reserved in between. */
  lemma AdoptionRunTwice(c: Config, s: Store, l: seq<Claim>, later: Store)
    requires SubStore(AdoptAll(c, s, l), later)
    ensures AdoptAll(c, later, l) == later
  {
    AdoptionReserves(c, s, l);
    NothingToAdopt(c, later, l);
  }

  lemma MulNext(q: nat, size: nat)
    ensures (q + 1) * size == q * size + size
  {
  }

  lemma ModOf(n: nat, size: nat, q: nat, r: nat)
    requires 0 < size && r < size && n == q * size + r
    ensures n % size == r
  {
    var p := n / size;
    assert n == p * size + n % size;
    MulNext(p, size);
    MulNext(q, size);
    if p < q {
      BigEndian.MulMonotone(p + 1, q, size);
    } else if q < p {
      BigEndian.MulMonotone(q + 1, p, size);
    }
  }

  lemma RoundIsMod(h: nat, i: nat, size: nat)
    requires 0 < size && i <= size
    ensures Round(h % size, i, size) == (h + i) % size
  {
    var q, r := h / size, Round(h % size, i, size);
    assert h == q * size + h % size;
    MulNext(q, size);
    ModOf(h + i, size, if h % size + i < size then q else q + 1, r);
  }

  /** Candidate `i` of a draw is an address it may hand out, that is not taken here nor by the peers. */
  ghost predicate IsFree(hash: Key -> nat, c: Config, s: Store, others: set<Addr>, key: Key, i: nat, a: Addr)
    requires c.range.Some? && 0 < PoolsSize(c.Drawn())
  {
    && PoolsAddr(c.Drawn(), (hash(key) + i) % PoolsSize(c.Drawn())) == Some(a)
    && InPools(c, a) && NotReserved(c, a) && a !in s && a !in others
  }

  /** Candidate `i` is the first free one. */
  ghost predicate IsFirstFree(hash: Key -> nat, c: Config, s: Store, others: set<Addr>, key: Key, i: nat, a: Addr)
    requires c.range.Some? && 0 < PoolsSize(c.Drawn())
  {
    IsFree(hash, c, s, others, key, i, a) && forall j: nat, b :: j < i ==> !IsFree(hash, c, s, others, key, j, b)
  }

  lemma FreeIsUsable(hash: Key -> nat, c: Config, s: Store, others: set<Addr>, key: Key, i: nat, a: Addr)
    requires c.range.Some? && i < PoolsSize(c.Drawn())
    ensures IsFree(hash, c, s, others, key, i, a) <==>
            && Candidate(c.Drawn(), hash(key) % PoolsSize(c.Drawn()), i) == Some(a)
            && Usable(c, s.Keys + others, Some(a))
  {
    RoundIsMod(hash(key), i, PoolsSize(c.Drawn()));
    AllocatableIs(c, a);
  }

  /** The candidates before the first usable one are not free. */
  lemma FirstUsableIsFirstFree(hash: Key -> nat, c: Config, s: Store, others: set<Addr>, key: Key, k: nat)
    requires c.range.Some? && k < PoolsSize(c.Drawn())
    requires var start := hash(key) % PoolsSize(c.Drawn());
             && Usable(c, s.Keys + others, Candidate(c.Drawn(), start, k))
             && forall j: nat :: j < k ==> !Usable(c, s.Keys + others, Candidate(c.Drawn(), start, j))
    ensures var start := hash(key) % PoolsSize(c.Drawn());
            IsFirstFree(hash, c, s, others, key, k, Candidate(c.Drawn(), start, k).value)
  {
    var start := hash(key) % PoolsSize(c.Drawn());
    FreeIsUsable(hash, c, s, others, key, k, Candidate(c.Drawn(), start, k).value);
    forall j: nat, b | j < k ensures !IsFree(hash, c, s, others, key, j, b) {
      FreeIsUsable(hash, c, s, others, key, j, b);
    }
  }

  lemma FirstFreeIsOne(hash: Key -> nat, c: Config, s: Store, others: set<Addr>, key: Key, i: nat, a: Addr, k: nat,
                       b: Addr)
    requires c.range.Some? && 0 < PoolsSize(c.Drawn())
    requires IsFirstFree(hash, c, s, others, key, i, a) && IsFirstFree(hash, c, s, others, key, k, b)
    ensures i == k && a == b
  {
  }

  /** An allocation draws the first free address among 4096 from the offset of the key on, going round the pools. */
  lemma DrawForExactly(hash: Key -> nat, c: Config, s: Store, others: set<Addr>, key: Key, a: Addr)
    requires c.range.Some? && c.Valid() && 0 < PoolsSize(c.Drawn())
    ensures DrawFor(hash, c, s, others, key) == Some(a) <==>
            exists i: nat :: i < 4096 && i < PoolsSize(c.Drawn()) && IsFirstFree(hash, c, s, others, key, i, a)
  {
    var size, start := PoolsSize(c.Drawn()), hash(key) % PoolsSize(c.Drawn());
    var k := DrawIsFirst(c, s.Keys + others, start, 0);
    if k < Probes(c.Drawn()) { FirstUsableIsFirstFree(hash, c, s, others, key, k); }
    if i: nat :| i < 4096 && i < size && IsFirstFree(hash, c, s, others, key, i, a) {
      FreeIsUsable(hash, c, s, others, key, i, a);
      FirstFreeIsOne(hash, c, s, others, key, i, a, k, Candidate(c.Drawn(), start, k).value);
    }
  }

  /** With pools the probes go round, an allocation finds no address exactly when all it may hand out are taken. */
  lemma AllocateFailsExactly(hash: Key -> nat, c: Config, s: Store, others: set<Addr>, key: Key)
    requires c.range.Some? && c.Valid() && NoneEmpty(c.Drawn()) && PoolsSize(c.Drawn()) <= 4096
    ensures DrawFor(hash, c, s, others, key) == None
       <==> forall a :: Canonical(a) && InPools(c, a) && NotReserved(c, a) ==> a in s || a in others
  {
    SizeIsPositive(c.Drawn());
    CompleteWalk(c, s.Keys + others, hash(key) % PoolsSize(c.Drawn()));
  }

  /** A key that drew an address and released it draws it again, whatever became taken meanwhile. */
  lemma StableAddress(hash: Key -> nat, c: Config, s: Store, others: set<Addr>, later: Store, othersLater: set<Addr>,
                      key: Key)
    requires c.range.Some? && c.Valid() && !HoldsIn(c, later, key)
    requires DrawFor(hash, c, s, others, key).Some?
    requires var a := DrawFor(hash, c, s, others, key).value; a !in later && a !in othersLater
    requires forall a :: c.Contains(a) && (a in s || a in others) ==> a in later || a in othersLater
    ensures DrawFor(hash, c, later, othersLater, key) == DrawFor(hash, c, s, others, key)
    ensures var a := DrawFor(hash, c, s, others, key).value;
            var t := AllocateStore(hash, c, later, othersLater, key); a in t && t[a] == key
  {
    var start := hash(key) % PoolsSize(c.Drawn());
    StableDraw(c, s.Keys + others, later.Keys + othersLater, start);
    DrawIsUsable(c, later.Keys + othersLater, start);
  }
}
