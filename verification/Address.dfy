/** Addresses: the bytes of a net.IP and the integer and family the allocator reads in them (core/ipam/ipam.go). */
module Address {
  import opened BigEndian
  import opened Text

  const V4_SIZE: nat := 0x1_0000_0000
  const V6_SIZE: nat := 0x1_0000_0000_0000_0000_0000_0000_0000_0000

  /** The first of the ipv6 addresses standing for an ipv4 one, ::ffff:0.0.0.0. */
  const MAPPED: nat := 0xffff_0000_0000

  type IP = b: seq<Byte> | |b| == 4 || |b| == 16 witness [0, 0, 0, 0]

  /** An address as the allocator sees it: whether To4 finds an ipv4 one in it, and its integer. */
  datatype Addr = Addr(v4: bool, n: nat)

  predicate Mapped(n: nat) {
    MAPPED <= n < MAPPED + V4_SIZE
  }

  /** An address some bytes stand for: an ipv6 one standing for an ipv4 one is that ipv4 one. */
  predicate Canonical(a: Addr) {
    if a.v4 then a.n < V4_SIZE else a.n < V6_SIZE && !Mapped(a.n)
  }

  /** The address of 4 or 16 bytes worth `n`. */
  function Canon(short: bool, n: nat): Addr {
    if !short && Mapped(n) then Addr(true, n - MAPPED) else Addr(short, n)
  }

  // ---------------------------------------------------------------- text

  /** An address as it is read: in 4 bytes or in 16, and its integer. */
  datatype Raw = Raw(short: bool, n: nat)

  /** The text of addresses: how one is shown, and what a text is read as. */
  datatype Notation = Notation(show: Addr -> string, read: string -> Option<Raw>)
  {
    /** What a text is read as fits the bytes it is read in. */
    ghost predicate InBounds() {
      forall s :: read(s).Some? ==> read(s).value.n < if read(s).value.short then V4_SIZE else V6_SIZE
    }

    /** What the text of addresses is taken for: read back as it was shown, with no slash and no dash in it. */
    ghost predicate Valid() {
      && InBounds()
      && (forall a :: Canonical(a) ==> read(show(a)) == Some(Raw(a.v4, a.n)))
      && (forall a :: Canonical(a) ==> !Has(show(a), '/') && !Has(show(a), '-'))
    }

    /** net.ParseIP */
    function Parse(s: string): Option<Addr> {
      match read(s)
      case None => None
      case Some(raw) => Some(Canon(raw.short, raw.n))
    }
  }

  // ---------------------------------------------------------------- bytes

  const V4_PREFIX: seq<Byte> := [0, 0, 0, 0, 0, 0, 0, 0, 0, 0, 0xff, 0xff]

  /** net.IP.To4 */
  function To4(ip: IP): Option<seq<Byte>> {
    if |ip| == 4 then Some(ip)
    else if ip[..12] == V4_PREFIX then Some(ip[12..])
    else None
  }

  /** The 4 bytes of an ipv4 address, the 16 of another. */
  function Short(ip: IP): seq<Byte> {
    match To4(ip)
    case Some(b) => b
    case None => ip
  }

  /** ipToInt: the integer of the ipv4 address To4 finds, else of all the bytes. */
  function IPToInt(ip: IP): nat {
    Int(Short(ip))
  }

  /** The address the bytes stand for. */
  function AddrOf(ip: IP): Addr {
    Canon(|ip| == 4, Int(ip))
  }

  /** net.IP.Equal */
  predicate Equal(a: IP, b: IP) {
    if |a| == |b| then a == b
    else if |a| == 4 then b[..12] == V4_PREFIX && b[12..] == a
    else a[..12] == V4_PREFIX && a[12..] == b
  }

  lemma PrefixInt()
    ensures Int(V4_PREFIX) == 0xffff
  {
    var z := V4_PREFIX[..10];
    assert z == Bytes(0, 10);
    IntOfBytes(0, 10);
    assert V4_PREFIX[..11] == z + [0xff] && (z + [0xff])[..10] == z;
    assert V4_PREFIX[..11][..10] == z;
  }

  lemma LengthInt(ip: IP)
    ensures |ip| == 4 ==> Int(ip) < V4_SIZE
    ensures |ip| == 16
            ==> Int(ip) < V6_SIZE && Int(ip) == Int(ip[..12]) * V4_SIZE + Int(ip[12..]) && Int(ip[12..]) < V4_SIZE
  {
    Pow2Of32();
    Pow2Of128();
    IntBound(ip);
    if |ip| == 16 {
      assert ip == ip[..12] + ip[12..];
      IntConcat(ip[..12], ip[12..]);
      IntBound(ip[12..]);
    }
  }

  lemma SameLengthSameInt(a: seq<Byte>, b: seq<Byte>)
    requires |a| == |b| && Int(a) == Int(b)
    ensures a == b
  {
    BytesOfInt(a);
    BytesOfInt(b);
  }

  /** What To4 and ipToInt find in the bytes is the address they stand for. */
  lemma BytesStandFor(ip: IP)
    ensures AddrOf(ip) == Addr(To4(ip).Some?, IPToInt(ip)) && Canonical(AddrOf(ip))
  {
    LengthInt(ip);
    if |ip| == 16 {
      PrefixInt();
      if Mapped(Int(ip)) {
        var d := Int(ip[..12]);
        if d > 0xffff { MulMonotone(0x1_0000, d, V4_SIZE); }
        if d < 0xffff { MulMonotone(d, 0xfffe, V4_SIZE); }
        SameLengthSameInt(ip[..12], V4_PREFIX);
      }
    }
  }

  lemma ShortStandsFor(ip: IP)
    ensures |Short(ip)| == 4 || |Short(ip)| == 16
    ensures AddrOf(ip) == Addr(|Short(ip)| == 4, Int(Short(ip)))
  {
    BytesStandFor(ip);
  }

  /** Two addresses are equal when they stand for the same one, whatever their length. */
  lemma EqualMeansSameAddr(a: IP, b: IP)
    ensures Equal(a, b) <==> AddrOf(a) == AddrOf(b)
  {
    BytesStandFor(a);
    BytesStandFor(b);
    if AddrOf(a) == AddrOf(b) {
      if To4(a).Some? {
        SameLengthSameInt(To4(a).value, To4(b).value);
        assert |a| == 16 ==> a == a[..12] + a[12..];
        assert |b| == 16 ==> b == b[..12] + b[12..];
      } else {
        SameLengthSameInt(a, b);
      }
    }
  }

  /** The bytes of an integer, cut to the low ones or padded with zeros. */
  method IntToIP(n: nat, isV4: bool) returns (ip: IP)
    ensures ip == Bytes(n, if isV4 then 4 else 16)
    ensures n < (if isV4 then V4_SIZE else V6_SIZE) ==> AddrOf(ip) == Canon(isV4, n)
  {
    var size := if isV4 then 4 else 16;
    var b := MinimalBytes(n);
    LowBytes(n, size);
    if |b| > size {
      b := b[|b| - size..];
    }
    var out: seq<Byte> := seq(size, _ => 0);
    for i := 0 to |b|
      invariant |out| == size
      invariant forall k :: 0 <= k < size - |b| ==> out[k] == 0
      invariant forall k :: size - |b| <= k < size - |b| + i ==> out[k] == b[k - (size - |b|)]
    {
      out := out[size - |b| + i := b[i]];
    }
    assert out == Bytes(n, size);
    ip := out;
    BytesOf(n, isV4);
  }

  lemma BytesOf(n: nat, isV4: bool)
    ensures n < (if isV4 then V4_SIZE else V6_SIZE) ==> AddrOf(Bytes(n, if isV4 then 4 else 16)) == Canon(isV4, n)
  {
    if n < (if isV4 then V4_SIZE else V6_SIZE) {
      if isV4 { Pow2Of32(); } else { Pow2Of128(); }
      IntOfBytes(n, if isV4 then 4 else 16);
    }
  }
}
