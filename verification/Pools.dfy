/** Pools of addresses (core/ipam/pool.go): spans and subnets, how they are written, and the lists of them. */
module Pools {
  import opened BigEndian
  import opened Text
  import opened Address

  /** A span of addresses, from `first` to `last` included. */
  datatype Pool = Pool(first: Addr, last: Addr)
  {
    /** A pool as ParsePool gives them: a subnet may start with an ipv6 address and end with an ipv4 one. */
    ghost predicate Read() {
      Canonical(first) && Canonical(last) && (first.v4 ==> last.v4) && (first.v4 == last.v4 ==> first.n <= last.n)
    }

    ghost predicate Valid() {
      Read() && first.v4 == last.v4
    }

    predicate Contains(a: Addr) {
      a.v4 == first.v4 && first.n <= a.n <= last.n
    }

    predicate Overlaps(o: Pool) {
      Contains(o.first) || Contains(o.last) || o.Contains(first)
    }

    function Size(): int {
      last.n - first.n + 1
    }
  }

  function Bits(short: bool): nat {
    if short then 32 else 128
  }

  ghost predicate Shares(p: Pool, q: Pool) {
    exists a :: Canonical(a) && p.Contains(a) && q.Contains(a)
  }

  /**
   Overlaps says exactly that the two pools have an address in common, for valid pools. A pool read with ends of two
   families also overlaps the pools its last address is in, and, holding no address, the ones its first address is in.
   */
  lemma OverlapsMeansShared(p: Pool, q: Pool)
    requires p.Read() && q.Read()
    ensures p.Overlaps(q) <==>
            || Shares(p, q)
            || (q.first.v4 != q.last.v4 && p.Contains(q.last))
            || (q.Size() <= 0 && p.Contains(q.first))
            || (p.Size() <= 0 && q.Contains(p.first))
  {
    if p.Size() > 0 && q.Size() > 0 && p.Overlaps(q) && !(q.first.v4 != q.last.v4 && p.Contains(q.last)) {
      var a := if p.Contains(q.first) then q.first else if p.Contains(q.last) then q.last else p.first;
      assert Canonical(a) && p.Contains(a) && q.Contains(a);
    }
  }

  // ---------------------------------------------------------------- the pool of a subnet

  /** The pool of the subnet of `ones` leading bits holding the address of 4 or 16 bytes worth `n`. */
  function SubnetPool(short: bool, n: nat, ones: nat): Pool
    requires ones <= Bits(short)
  {
    var base := Clear(n, Bits(short) - ones);
    Pool(Canon(short, base), Canon(short, base + Pow2(Bits(short) - ones) - 1))
  }

  /** The first address of a subnet is the masked one, the last has every other bit set. */
  method PoolOf(ip: IP, ones: nat) returns (first: IP, last: IP)
    requires ones <= 8 * |ip|
    ensures Pool(AddrOf(first), AddrOf(last)) == SubnetPool(|ip| == 4, Int(ip), ones)
  {
    var mask := CIDRMask(ones, |ip|);
    first := Masked(ip, mask);
    var l: seq<Byte> := [];
    for i := 0 to |first|
      invariant |l| == i
      invariant forall k :: 0 <= k < i ==> l[k] == ByteOr(first[k], ByteNot(mask[k]))
    {
      l := l + [ByteOr(first[i], ByteNot(mask[i]))];
    }
    assert l == Filled(first, mask);
    last := l;
    ghost var h := Bits(|ip| == 4) - ones;
    EndsOfSubnet(ip, ones, h);
    EndsOfPool(|ip| == 4, Int(first), Int(last), Int(ip), ones, h);
  }

  lemma EndsOfPool(short: bool, first: nat, last: nat, n: nat, ones: nat, h: nat)
    requires ones + h == Bits(short) && first == Clear(n, h) && last == Clear(n, h) + Pow2(h) - 1
    ensures Pool(Canon(short, first), Canon(short, last)) == SubnetPool(short, n, ones)
  {
  }

  lemma EndsOfSubnet(b: seq<Byte>, ones: nat, h: nat)
    requires ones + h == 8 * |b|
    ensures var m := CIDRMask(ones, |b|);
            && Int(Masked(b, m)) == Clear(Int(b), h)
            && Int(Filled(Masked(b, m), m)) == Clear(Int(b), h) + Pow2(h) - 1
  {
    assert HostSize(ones, |b|) == h;
    MaskedInt(b, ones);
    FilledInt(b, ones);
  }

  lemma StartOfSubnet(b: seq<Byte>, ones: nat, h: nat)
    requires ones + h == 8 * |b|
    ensures Int(Masked(b, CIDRMask(ones, |b|))) == Clear(Int(b), h)
  {
    EndsOfSubnet(b, ones, h);
  }

  /** The bytes are the same, masked. */
  predicate SameUnderMask(a: seq<Byte>, b: seq<Byte>, m: seq<Byte>)
    requires |a| == |b| == |m|
  {
    Masked(a, m) == Masked(b, m)
  }

  /** The bytes are as many, and the same under the last bytes of the mask. */
  predicate SameUnderEnd(n: seq<Byte>, x: seq<Byte>, mask: seq<Byte>) {
    |x| == |n| <= |mask| && SameUnderMask(n, x, mask[|mask| - |n|..])
  }

  /** net.IPNet.Contains: the network in 4 bytes when To4 finds an ipv4 one in it, the mask cut to its last 4. */
  predicate NetContains(net: IP, mask: seq<Byte>, ip: IP)
    requires |net| == |mask|
  {
    SameUnderEnd(Short(net), Short(ip), mask)
  }

  lemma SameMasked(net: seq<Byte>, x: seq<Byte>, m: seq<Byte>)
    requires |x| == |net| == |m|
    ensures SameUnderMask(net, x, m) <==> Int(Masked(net, m)) == Int(Masked(x, m))
  {
    var a, b := Masked(net, m), Masked(x, m);
    if Int(a) == Int(b) { SameLengthSameInt(a, b); }
  }

  lemma SameSubnet(net: seq<Byte>, x: seq<Byte>, ones: nat, h: nat)
    requires |x| == |net| && ones + h == 8 * |net|
    ensures SameUnderMask(net, x, CIDRMask(ones, |net|))
            <==> Clear(Int(net), h) <= Int(x) < Clear(Int(net), h) + Pow2(h)
  {
    var m := CIDRMask(ones, |net|);
    SameMasked(net, x, m);
    assert Int(Masked(net, m)) == Clear(Int(net), h) by { StartOfSubnet(net, ones, h); }
    assert Int(Masked(x, m)) == Clear(Int(x), h) by { StartOfSubnet(x, ones, h); }
    SameBlock(Int(net), Int(x), h);
  }

  /** A network, as net.ParseCIDR gives it: the first address of a subnet, of 4 or 16 bytes worth `n`. */
  datatype Net = Net(short: bool, n: nat, ones: nat)
  {
    predicate Fits() {
      n < (if short then V4_SIZE else V6_SIZE) && ones <= Bits(short)
    }

    ghost predicate Valid() {
      Fits() && Clear(n, Bits(short) - ones) == n
    }

    /** PoolOf: the addresses from the first to the last of the subnet. */
    function Subnet(): Pool
      requires Fits()
    {
      SubnetPool(short, n, ones)
    }

    predicate Contains(a: Addr)
      requires Fits()
    {
      var first := Canon(short, n);
      a.v4 == first.v4 && first.n <= a.n < first.n + Pow2(Bits(short) - ones)
    }
  }

  /** Every address and every length of prefix make a network, as net.ParseCIDR reads them. */
  lemma EveryPrefixIsANet(short: bool, n: nat, ones: nat)
    requires if short then n < Pow2(32) && ones <= 32 else n < Pow2(128) && ones <= 128
    ensures Net(short, Clear(n, (if short then 32 else 128) - ones), ones).Valid()
  {
    var h := Bits(short) - ones;
    FamilySize(short);
    SameBlock(n, Clear(n, h), h);
    BlockEnd(n, h, Bits(short));
  }

  /** An address under the mask of a network, against the addresses the network holds. */
  lemma UnderMaskIsInNet(net: Net, first: Addr, a: Addr, h: nat, same: bool)
    requires net.Fits() && h == Bits(net.short) - net.ones && Canon(net.short, net.n) == first
    requires first.v4 == a.v4 ==> (same <==> first.n <= a.n < first.n + Pow2(h))
    requires first.v4 != a.v4 ==> !same
    ensures same <==> net.Contains(a)
  {
  }

  /** Two addresses of one family are as long as each other, in their short form. */
  lemma ShortLengths(a: IP, b: IP)
    ensures |Short(a)| == |Short(b)| <==> AddrOf(a).v4 == AddrOf(b).v4
    ensures AddrOf(a).n == Int(Short(a)) && AddrOf(b).n == Int(Short(b))
    ensures |Short(a)| == 4 || |Short(a)| == 16
  {
    ShortStandsFor(a);
    ShortStandsFor(b);
  }

  /** A subnet of the mapped addresses leaves out at most 32 bits, and starts where that of 4 bytes does. */
  lemma MappedNet(n: nat, ones: nat)
    requires Mapped(n) && ones <= 128 && Clear(n, 128 - ones) == n
    ensures ones >= 96 && Clear(n - MAPPED, 128 - ones) == n - MAPPED
  {
    var h := 128 - ones;
    Pow2Of32();
    var q := ClearIsMultiple(n, h);
    MixedBlock(q, h, Pow2(h), n);
    if h > 32 { Pow2Increases(32, h); }
    ShiftIs(0xffff, 32);
    ClearLow(0xffff, n - MAPPED, 32, h);
  }

  lemma {:induction false} ShiftIs(i: nat, p: nat)
    ensures Shift(i, p) == i * Pow2(p)
  {
    if p == 0 {
    } else {
      ShiftIs(i, p - 1);
      assert 2 * (i * Pow2(p - 1)) == i * (2 * Pow2(p - 1));
    }
  }

  /** The mask cut to its last bytes, the ones before being all ones. */
  lemma CutMask(ones: nat, size: nat, cut: nat)
    requires cut <= size && 8 * cut <= ones
    ensures CIDRMask(ones, size)[cut..] == CIDRMask(ones - 8 * cut, size - cut)
  {
    var m, c := CIDRMask(ones, size), CIDRMask(ones - 8 * cut, size - cut);
    forall i | 0 <= i < size - cut ensures m[cut..][i] == c[i] {
      assert HostBits(ones, cut + i) == HostBits(ones - 8 * cut, i);
    }
  }

  /** The bytes `x` of an address are under the mask of `ones` ones of a network of the bytes `n`. */
  ghost predicate UnderMask(n: seq<Byte>, x: seq<Byte>, ones: nat) {
    |x| == |n| && SameUnderMask(n, x, CIDRMask(ones, |n|))
  }

  /** A network in a form `cut` bytes shorter than its mask. */
  lemma UnderEndIsUnderMask(n: seq<Byte>, x: seq<Byte>, ones: nat, cut: nat)
    requires 8 * cut <= ones
    ensures SameUnderEnd(n, x, CIDRMask(ones, |n| + cut)) <==> UnderMask(n, x, ones - 8 * cut)
  {
    CutMask(ones, |n| + cut, cut);
  }

  lemma UnderMaskIsBlock(n: seq<Byte>, x: seq<Byte>, ones: nat, h: nat, base: nat)
    requires ones + h == 8 * |n| && base == Clear(Int(n), h)
    ensures UnderMask(n, x, ones) <==> |x| == |n| && base <= Int(x) < base + Pow2(h)
  {
    if |x| == |n| { SameSubnet(n, x, ones, h); }
  }

  lemma MappedBytes(net: IP)
    requires |net| == 16 && |Short(net)| == 4
    ensures Mapped(Int(net)) && Int(Short(net)) == Int(net) - MAPPED
  {
    ShortStandsFor(net);
  }

  /** A network starts where it does in its short form, and its mask has all the bytes that form leaves out. */
  lemma ShortNet(net: IP, ones: nat, h: nat)
    requires Net(|net| == 4, Int(net), ones).Valid() && ones + h == 8 * |net|
    ensures |Short(net)| <= |net| && 8 * (|net| - |Short(net)|) <= ones && Clear(Int(Short(net)), h) == Int(Short(net))
  {
    if |Short(net)| == |net| {
      assert Short(net) == net;
    } else {
      MappedBytes(net);
      MappedNet(Int(net), ones);
    }
  }

  /** A network contains the addresses of its subnet, whatever the length of either. */
  lemma NetContainsItsSubnet(net: IP, ones: nat, ip: IP)
    requires Net(|net| == 4, Int(net), ones).Valid()
    ensures NetContains(net, CIDRMask(ones, |net|), ip) <==> Net(|net| == 4, Int(net), ones).Contains(AddrOf(ip))
  {
    var h, cut, n, x := 8 * |net| - ones, |net| - |Short(net)|, Short(net), Short(ip);
    ShortNet(net, ones, h);
    UnderEndIsUnderMask(n, x, ones, cut);
    UnderMaskIsBlock(n, x, ones - 8 * cut, h, Int(n));
    ShortLengths(ip, net);
    UnderMaskIsInNet(Net(|net| == 4, Int(net), ones), AddrOf(net), AddrOf(ip), h, UnderMask(n, x, ones - 8 * cut));
  }

  /** A network contains what the pool of its subnet does exactly when the ends of the pool are of one family. */
  lemma NetIsItsPoolExactly(net: Net)
    requires net.Valid()
    ensures (forall a :: Canonical(a) ==> (net.Contains(a) <==> net.Subnet().Contains(a)))
       <==> net.Subnet().first.v4 == net.Subnet().last.v4
  {
    var p, h := net.Subnet(), Bits(net.short) - net.ones;
    assert p.first == Canon(net.short, net.n);
    SubnetFits(net.short, net.n, net.ones);
    if p.first.v4 != p.last.v4 {
      MixedSubnets(net.n, net.ones);
      var far := if p.Size() > 0 then Addr(false, V4_SIZE) else p.first;
      LargeNet(net);
      assert Canonical(far) && net.Contains(far) && !p.Contains(far);
    }
  }

  lemma LargeNet(net: Net)
    requires net.Valid() && !net.short && net.Subnet().first.v4 != net.Subnet().last.v4
    ensures net.Subnet().Size() > 0 ==> net.n <= V4_SIZE < net.n + Pow2(128 - net.ones)
    ensures !net.Subnet().first.v4 && net.n < net.n + Pow2(128 - net.ones)
  {
    MixedSubnets(net.n, net.ones);
  }

  // ---------------------------------------------------------------- how a pool is written

  type Show = Addr -> string
  type Read = string -> Option<Raw>

  /** net.ParseCIDR: the address and the number of leading ones. */
  function ParseCIDR(read: Read, s: string): (r: Option<(Raw, nat)>)
    ensures r.Some? ==> r.value.1 <= Bits(r.value.0.short)
  {
    match Cut(s, '/')
    case None => None
    case Some((addr, ones)) =>
      match read(addr)
      case None => None
      case Some(raw) =>
        if ones != "" && AllDigits(ones) && Value(ones) <= Bits(raw.short) then Some((raw, Value(ones))) else None
  }

  function ParsePool(read: Read, s: string): Option<Pool> {
    if Has(s, '/') then
      match ParseCIDR(read, s)
      case None => None
      case Some((raw, ones)) => Some(SubnetPool(raw.short, raw.n, ones))
    else
      match Cut(s, '-')
      case None => None
      case Some((first, last)) =>
        match (read(first), read(last))
        case (Some(f), Some(l)) =>
          var p := Pool(Canon(f.short, f.n), Canon(l.short, l.n));
          if p.first.v4 != p.last.v4 || p.first.n > p.last.n then None else Some(p)
        case (_, _) => None
  }

  /** big.Int.BitLen */
  function BitLen(n: nat): nat {
    if n == 0 then 0 else 1 + BitLen(n / 2)
  }

  /** The number of leading ones of the subnet the pool is all the addresses of. */
  function SubnetOnes(p: Pool): Option<int> {
    var size := p.Size();
    if size <= 0 then None
    else
      var host := BitLen(size) - 1;
      if size == Pow2(host) && Clear(p.first.n, host) == p.first.n then Some(Bits(p.first.v4) - host) else None
  }

  function Print(show: Show, p: Pool): string {
    match SubnetOnes(p)
    case Some(ones) => show(p.first) + "/" + Itoa(ones)
    case None => show(p.first) + "-" + show(p.last)
  }

  lemma {:induction false} BitLenOfPow2(k: nat)
    ensures BitLen(Pow2(k)) == k + 1
  {
    if k == 0 {
    } else {
      BitLenOfPow2(k - 1);
    }
  }

  lemma FamilySize(short: bool)
    ensures Pow2(Bits(short)) == if short then V4_SIZE else V6_SIZE
  {
    if short { Pow2Of32(); } else { Pow2Of128(); }
  }

  /** The subnet printed is a subnet, and it is the pool. */
  lemma SubnetOnesIsThePool(p: Pool)
    requires p.Valid() && SubnetOnes(p).Some?
    ensures 0 <= SubnetOnes(p).value <= Bits(p.first.v4)
    ensures SubnetPool(p.first.v4, p.first.n, SubnetOnes(p).value) == p
  {
    var host := BitLen(p.Size()) - 1;
    FamilySize(p.first.v4);
    if host > Bits(p.first.v4) { Pow2Increases(Bits(p.first.v4), host); }
  }

  /** The subnet form is chosen exactly when the pool is all the addresses of a subnet. */
  lemma SubnetChosenExactly(p: Pool)
    requires p.Valid()
    ensures SubnetOnes(p).Some? <==>
            exists ones: nat :: ones <= Bits(p.first.v4) && SubnetPool(p.first.v4, p.first.n, ones) == p
  {
    if SubnetOnes(p).Some? {
      SubnetOnesIsThePool(p);
    } else if exists ones: nat :: ones <= Bits(p.first.v4) && SubnetPool(p.first.v4, p.first.n, ones) == p {
      var ones: nat :| ones <= Bits(p.first.v4) && SubnetPool(p.first.v4, p.first.n, ones) == p;
      SubnetIsFound(p, ones);
    }
  }

  lemma SubnetIsFound(p: Pool, ones: nat)
    requires p.Valid() && ones <= Bits(p.first.v4) && SubnetPool(p.first.v4, p.first.n, ones) == p
    ensures SubnetOnes(p) == Some(ones as int)
  {
    var host := Bits(p.first.v4) - ones;
    BitLenOfPow2(host);
    FamilySize(p.first.v4);
  }

  lemma HasInConcat(a: string, b: string, c: char)
    ensures Has(a + b, c) <==> Has(a, c) || Has(b, c)
  {
    if Has(a, c) { var i :| 0 <= i < |a| && a[i] == c; assert (a + b)[i] == c; }
    if Has(b, c) { var i :| 0 <= i < |b| && b[i] == c; assert (a + b)[|a| + i] == c; }
  }

  lemma ParseSubnet(read: Read, addr: string, raw: Raw, ones: nat)
    requires !Has(addr, '/') && read(addr) == Some(raw) && ones <= Bits(raw.short)
    ensures ParsePool(read, addr + "/" + Itoa(ones)) == Some(SubnetPool(raw.short, raw.n, ones))
  {
    var s := addr + "/" + Itoa(ones);
    CutAt(addr, '/', Itoa(ones));
    assert s[|addr|] == '/';
    DecimalValue(ones);
  }

  lemma ParseSpan(read: Read, f: string, l: string)
    requires !Has(f, '/') && !Has(l, '/') && !Has(f, '-')
    ensures ParsePool(read, f + "-" + l) ==
            match (read(f), read(l))
            case (Some(x), Some(y)) =>
              var p := Pool(Canon(x.short, x.n), Canon(y.short, y.n));
              if p.first.v4 != p.last.v4 || p.first.n > p.last.n then None else Some(p)
            case (_, _) => None
  {
    CutAt(f, '-', l);
    HasInConcat(f, "-", '/');
    HasInConcat(f + "-", l, '/');
  }

  /** The text is a subnet: an address, a slash, and how many ones lead its mask. */
  ghost predicate SaysSubnet(read: Read, s: string, p: Pool, addr: string, digits: string) {
    && s == addr + "/" + digits && !Has(addr, '/') && read(addr).Some? && digits != "" && AllDigits(digits)
    && Value(digits) <= Bits(read(addr).value.short)
    && p == SubnetPool(read(addr).value.short, read(addr).value.n, Value(digits))
  }

  /** The text is a span: two addresses of one family around a dash, the first not past the last. */
  ghost predicate SaysSpan(read: Read, s: string, p: Pool, first: string, last: string) {
    && s == first + "-" + last && !Has(s, '/') && !Has(first, '-') && read(first).Some? && read(last).Some?
    && p.first == Canon(read(first).value.short, read(first).value.n)
    && p.last == Canon(read(last).value.short, read(last).value.n)
    && p.first.v4 == p.last.v4 && p.first.n <= p.last.n
  }

  lemma CutIs(s: string, c: char)
    requires Cut(s, c).Some?
    ensures var (a, b) := Cut(s, c).value; s == a + [c] + b && !Has(a, c)
  {
    var n := IndexOf(s, c);
    assert s == s[..n] + [s[n]] + s[n + 1..];
  }

  /** A text is read as a pool exactly when it is a subnet or a span of it. */
  lemma ParsePoolExactly(read: Read, s: string, p: Pool)
    ensures ParsePool(read, s) == Some(p) <==>
            (exists a, b :: SaysSubnet(read, s, p, a, b)) || (exists a, b :: SaysSpan(read, s, p, a, b))
  {
    if Has(s, '/') {
      if ParsePool(read, s) == Some(p) {
        CutIs(s, '/');
        var (a, b) := Cut(s, '/').value;
        assert SaysSubnet(read, s, p, a, b);
      }
      if a, b :| SaysSubnet(read, s, p, a, b) { CutAt(a, '/', b); }
    } else {
      assert !exists a, b :: SaysSubnet(read, s, p, a, b) by { NoSubnetWithoutSlash(read, s, p); }
      if ParsePool(read, s) == Some(p) {
        CutIs(s, '-');
        var (a, b) := Cut(s, '-').value;
        assert SaysSpan(read, s, p, a, b);
      }
      if a, b :| SaysSpan(read, s, p, a, b) { CutAt(a, '-', b); }
    }
  }

  lemma NoSubnetWithoutSlash(read: Read, s: string, p: Pool)
    requires !Has(s, '/')
    ensures !exists a, b :: SaysSubnet(read, s, p, a, b)
  {
    forall a: string, b: string ensures s != a + "/" + b {
      assert (a + "/" + b)[|a|] == '/';
    }
  }

  /** Every valid pool is read back as it was written. */
  lemma ParseOfPrint(t: Notation, p: Pool)
    requires t.Valid() && p.Valid()
    ensures ParsePool(t.read, Print(t.show, p)) == Some(p)
  {
    match SubnetOnes(p)
    case Some(ones) =>
      SubnetOnesIsThePool(p);
      ParseSubnet(t.read, t.show(p.first), Raw(p.first.v4, p.first.n), ones);
    case None =>
      ParseSpan(t.read, t.show(p.first), t.show(p.last));
  }

  // ---------------------------------------------------------------- pools that are not read back

  lemma SubnetFits(short: bool, n: nat, ones: nat)
    requires n < (if short then V4_SIZE else V6_SIZE) && ones <= Bits(short)
    ensures Canonical(SubnetPool(short, n, ones).first) && Canonical(SubnetPool(short, n, ones).last)
    ensures SubnetPool(short, n, ones).first.v4 == SubnetPool(short, n, ones).last.v4 ==>
            SubnetPool(short, n, ones).Valid()
  {
    var h := Bits(short) - ones;
    FamilySize(short);
    BlockEnd(n, h, Bits(short));
  }

  /** A block of at most 2^32 addresses is all in the mapped ones or all out of them. */
  lemma SmallBlock(q: nat, block: nat, w: nat)
    requires block > 0 && w * block == V4_SIZE
    ensures Mapped(q * block) <==> Mapped(q * block + block - 1)
  {
    assert MAPPED == 0xffff * w * block && MAPPED + V4_SIZE == 0x1_0000 * w * block;
    assert (q + 1) * block == q * block + block;
    if q < 0xffff * w { MulMonotone(q + 1, 0xffff * w, block); } else { MulMonotone(0xffff * w, q, block); }
    if q < 0x1_0000 * w { MulMonotone(q + 1, 0x1_0000 * w, block); } else { MulMonotone(0x1_0000 * w, q, block); }
  }

  /** A larger block never starts in the mapped ones, and ends in them only at their end. */
  lemma LargeBlock(q: nat, block: nat, w: nat)
    requires block == w * (2 * V4_SIZE) && w > 0
    ensures !Mapped(q * block)
    ensures Mapped(q * block + block - 1) <==> q * block + block == MAPPED + V4_SIZE
  {
    MulAssociates(q, w, 2 * V4_SIZE);
    EvenMultiple(w * q);
    EvenMultiple(w * q + w);
  }

  /** MAPPED is an odd multiple of 2^32: no multiple of 2^33 is strictly within the mapped addresses. */
  lemma EvenMultiple(k: nat)
    ensures !Mapped(k * (2 * V4_SIZE))
    ensures MAPPED < k * (2 * V4_SIZE) <= MAPPED + V4_SIZE ==> k * (2 * V4_SIZE) == MAPPED + V4_SIZE
  {
  }

  lemma BlocksInV4(h: nat)
    requires h <= 32
    ensures Pow2(32 - h) * Pow2(h) == V4_SIZE
  {
    Pow2Of32();
    Pow2Add(32 - h, h);
  }

  lemma LargePow2(h: nat)
    requires h > 32
    ensures Pow2(h) == Pow2(h - 33) * (2 * V4_SIZE)
    ensures Pow2(h) <= MAPPED + V4_SIZE ==> h <= 48
  {
    Pow2Of32();
    Pow2Of48();
    assert Pow2(33) == 2 * Pow2(32);
    Pow2Add(h - 33, 33);
    if h > 48 { Pow2Increases(48, h); }
  }

  lemma MixedBlock(q: nat, h: nat, block: nat, base: nat)
    requires block == Pow2(h) && base == q * block
    ensures Mapped(base) ==> Mapped(base + block - 1)
    ensures !Mapped(base) && Mapped(base + block - 1) <==> 33 <= h <= 48 && base + block == MAPPED + V4_SIZE
  {
    if h <= 32 {
      BlocksInV4(h);
      SmallBlock(q, block, Pow2(32 - h));
    } else {
      LargePow2(h);
      LargeBlock(q, block, Pow2(h - 33));
    }
  }

  /** The subnets whose first and last addresses are not of one family: the sixteen from ::/80 to ::fffe:0:0/95. */
  lemma MixedSubnets(n: nat, ones: nat)
    requires n < V6_SIZE && ones <= 128
    ensures var p, block := SubnetPool(false, n, ones), Pow2(128 - ones);
            && (p.first.v4 ==> p.last.v4)
            && (!p.first.v4 && p.last.v4 <==> 80 <= ones <= 95 && Clear(n, 128 - ones) + block == MAPPED + V4_SIZE)
  {
    var q := ClearIsMultiple(n, 128 - ones);
    MixedBlock(q, 128 - ones, Pow2(128 - ones), Clear(n, 128 - ones));
  }

  lemma SmallHost(size: int, host: int)
    requires 0 < size <= V4_SIZE && host >= 0 && size == Pow2(host)
    ensures host <= 32
  {
    Pow2Of32();
    if host > 32 { Pow2Increases(32, host); }
  }

  lemma MixedIsNotReadBack(t: Notation, p: Pool)
    requires t.Valid() && Canonical(p.first) && Canonical(p.last)
    requires !p.first.v4 && p.last.v4
    ensures ParsePool(t.read, Print(t.show, p)) != Some(p)
  {
    if SubnetOnes(p).Some? {
      var host := BitLen(p.Size()) - 1;
      SmallHost(p.Size(), host);
      var again := SubnetPool(false, p.first.n, 128 - host);
      ParseSubnet(t.read, t.show(p.first), Raw(false, p.first.n), 128 - host);
      assert again.last == Addr(false, p.last.n);
    } else {
      ParseSpan(t.read, t.show(p.first), t.show(p.last));
    }
  }

  /** A pool read is read back as it is written exactly when its addresses are of one family. */
  lemma RoundTrip(t: Notation, s: string)
    requires t.Valid() && ParsePool(t.read, s).Some?
    ensures var p := ParsePool(t.read, s).value;
            ParsePool(t.read, Print(t.show, p)) == Some(p) <==> p.first.v4 == p.last.v4
  {
    var p := ParsePool(t.read, s).value;
    ParsedPool(t, s);
    if p.first.v4 == p.last.v4 { ParseOfPrint(t, p); } else { MixedIsNotReadBack(t, p); }
  }

  lemma ParsedPool(t: Notation, s: string)
    requires t.InBounds() && ParsePool(t.read, s).Some?
    ensures ParsePool(t.read, s).value.Read()
  {
    if Has(s, '/') {
      var (raw, ones) := ParseCIDR(t.read, s).value;
      SubnetFits(raw.short, raw.n, ones);
      if !raw.short { MixedSubnets(raw.n, ones); }
    }
  }

  /** ::/80 is read as a pool of 2^32 addresses instead of 2^48, ending at 255.255.255.255, and written ::/96. */
  lemma MixedExample()
    ensures SubnetPool(false, 0, 80) == Pool(Addr(false, 0), Addr(true, V4_SIZE - 1))
    ensures SubnetPool(false, 0, 80).Size() == V4_SIZE
    ensures SubnetOnes(SubnetPool(false, 0, 80)) == Some(96)
  {
    Pow2Of32();
    Pow2Of48();
    ClearAll(0, 48);
    ClearAll(0, 32);
    BitLenOfPow2(32);
  }
}
