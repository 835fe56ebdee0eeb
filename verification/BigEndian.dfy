/** Bytes, bit masks and the big-endian integers they stand for, as net.IP and math/big use them. */
module BigEndian {
  type Byte = n: nat | n < 256

  function Pow2(k: nat): (p: nat)
    ensures p > 0
  {
    if k == 0 then 1 else 2 * Pow2(k - 1)
  }

  lemma DoubleProduct(x: nat, y: nat)
    ensures 2 * (x * y) == (2 * x) * y
  {
  }

  lemma {:induction false} Pow2Add(a: nat, b: nat)
    ensures Pow2(a + b) == Pow2(a) * Pow2(b)
    decreases a
  {
    if a == 0 {
    } else {
      DoubleProduct(Pow2(a - 1), Pow2(b));
      Pow2Add(a - 1, b);
      assert Pow2(a + b) == 2 * Pow2(a - 1 + b);
    }
  }

  lemma {:induction false} Pow2Increases(a: nat, b: nat)
    requires a < b
    ensures 2 * Pow2(a) <= Pow2(b)
    decreases b
  {
    if a < b - 1 { Pow2Increases(a, b - 1); }
  }

  lemma Pow2Of8()
    ensures Pow2(8) == 0x100
  {
  }

  lemma Pow2Of16()
    ensures Pow2(16) == 0x1_0000
  {
    Pow2Of8();
    Pow2Add(8, 8);
  }

  lemma Pow2Of32()
    ensures Pow2(32) == 0x1_0000_0000
  {
    Pow2Of16();
    Pow2Add(16, 16);
  }

  lemma Pow2Of48()
    ensures Pow2(48) == 0x1_0000_0000_0000
  {
    Pow2Of16();
    Pow2Of32();
    Pow2Add(32, 16);
  }

  lemma Pow2Of64()
    ensures Pow2(64) == 0x1_0000_0000_0000_0000
  {
    Pow2Of32();
    Pow2Add(32, 32);
  }

  lemma Pow2Of128()
    ensures Pow2(128) == 0x1_0000_0000_0000_0000_0000_0000_0000_0000
  {
    Pow2Of64();
    Pow2Add(64, 64);
  }

  // ---------------------------------------------------------------- bytes and integers

  /** big.Int.SetBytes */
  function Int(b: seq<Byte>): nat {
    if b == [] then 0 else 256 * Int(b[..|b| - 1]) + b[|b| - 1]
  }

  /** The low `size` bytes of an integer. */
  function Bytes(n: nat, size: nat): (b: seq<Byte>)
    ensures |b| == size
    decreases size
  {
    if size == 0 then [] else Bytes(n / 256, size - 1) + [n % 256]
  }

  /** big.Int.Bytes: as many bytes as the integer needs. */
  function MinimalBytes(n: nat): seq<Byte> {
    if n == 0 then [] else MinimalBytes(n / 256) + [n % 256]
  }

  lemma {:induction false} IntBound(b: seq<Byte>)
    ensures Int(b) < Pow2(8 * |b|)
  {
    if b == [] {
    } else {
      IntBound(b[..|b| - 1]);
      NextByte(|b| - 1);
    }
  }

  lemma {:induction false} BytesOfInt(b: seq<Byte>)
    ensures Bytes(Int(b), |b|) == b
  {
    if b == [] {
    } else {
      BytesOfInt(b[..|b| - 1]);
      assert Int(b) / 256 == Int(b[..|b| - 1]) && Int(b) % 256 == b[|b| - 1];
    }
  }

  lemma {:induction false} IntOfBytes(n: nat, size: nat)
    requires n < Pow2(8 * size)
    ensures Int(Bytes(n, size)) == n
    decreases size
  {
    if size == 0 {
    } else {
      var b := Bytes(n, size);
      NextByte(size - 1);
      IntOfBytes(n / 256, size - 1);
      assert b[..size - 1] == Bytes(n / 256, size - 1);
    }
  }

  lemma {:induction false} IntConcat(a: seq<Byte>, b: seq<Byte>)
    ensures Int(a + b) == Int(a) * Pow2(8 * |b|) + Int(b)
  {
    if b == [] {
      assert a + b == a;
    } else {
      var n := |b| - 1;
      IntConcat(a, b[..n]);
      assert (a + b)[..|a + b| - 1] == a + b[..n];
      NextByte(n);
      MulAssociates(256, Int(a), Pow2(8 * n));
    }
  }

  /** A byte more is 256 times as many integers. */
  lemma NextByte(n: nat)
    ensures Pow2(8 * (n + 1)) == 256 * Pow2(8 * n)
  {
    Pow2Of8();
    Pow2Add(8, 8 * n);
  }

  lemma MulAssociates(k: nat, a: nat, b: nat)
    ensures k * (a * b) == a * (k * b)
  {
  }

  /** Comparing bytes, first byte first, compares the integers: bytes.Compare on addresses of one length. */
  predicate Above(a: seq<Byte>, b: seq<Byte>)
    requires |a| == |b|
  {
    a != [] && (a[0] > b[0] || (a[0] == b[0] && Above(a[1..], b[1..])))
  }

  lemma {:induction false} AboveIsGreater(a: seq<Byte>, b: seq<Byte>)
    requires |a| == |b|
    ensures Above(a, b) <==> Int(a) > Int(b)
  {
    if a == [] {
    } else {
      AboveIsGreater(a[1..], b[1..]);
      IntHead(a);
      IntHead(b);
      var p := Pow2(8 * (|a| - 1));
      if a[0] > b[0] {
        LeadingDigit(a[0], b[0], p, Int(a[1..]), Int(b[1..]));
      } else if a[0] < b[0] {
        LeadingDigit(b[0], a[0], p, Int(b[1..]), Int(a[1..]));
      }
    }
  }

  lemma LeadingDigit(x: nat, y: nat, p: nat, u: nat, v: nat)
    requires x > y && u < p && v < p
    ensures x * p + u > y * p + v
  {
    MulMonotone(y + 1, x, p);
  }

  lemma MulMonotone(x: int, y: int, m: nat)
    requires x <= y
    ensures x * m <= y * m
  {
    assert (y - x) * m >= 0;
  }

  lemma IntHead(a: seq<Byte>)
    requires a != []
    ensures Int(a) == a[0] * Pow2(8 * (|a| - 1)) + Int(a[1..]) && Int(a[1..]) < Pow2(8 * (|a| - 1))
  {
    assert a == [a[0]] + a[1..];
    IntConcat([a[0]], a[1..]);
    IntBound(a[1..]);
    assert Int([a[0]]) == a[0] by { assert [a[0]][..0] == []; }
  }

  /** The low bytes of an integer are the last ones it needs, after zeros when it needs fewer. */
  lemma {:induction false} LowBytes(n: nat, size: nat)
    ensures var b := MinimalBytes(n);
            Bytes(n, size) == if |b| > size then b[|b| - size..] else seq(size - |b|, _ => 0) + b
    decreases size
  {
    if n == 0 {
      ZeroBytes(size);
    } else if size > 0 {
      LowBytes(n / 256, size - 1);
    }
  }

  lemma {:induction false} ZeroBytes(size: nat)
    ensures Bytes(0, size) == seq(size, _ => 0)
  {
    if size == 0 {
    } else {
      ZeroBytes(size - 1);
    }
  }

  // ---------------------------------------------------------------- bits

  /** The bitwise and of the low `k` bits. */
  function BitAnd(a: nat, b: nat, k: nat): (c: nat)
    ensures c < Pow2(k)
  {
    if k == 0 then 0 else (if a % 2 == 1 && b % 2 == 1 then 1 else 0) + 2 * BitAnd(a / 2, b / 2, k - 1)
  }

  /** The bitwise or of the low `k` bits. */
  function BitOr(a: nat, b: nat, k: nat): (c: nat)
    ensures c < Pow2(k)
  {
    if k == 0 then 0 else (if a % 2 == 1 || b % 2 == 1 then 1 else 0) + 2 * BitOr(a / 2, b / 2, k - 1)
  }

  /** The number with its low `h` bits cleared: the start of its block of 2^h. */
  function Clear(n: nat, h: nat): nat
    decreases h
  {
    if h == 0 then n else 2 * Clear(n / 2, h - 1)
  }

  /** The number with its low `h` bits set: the end of its block of 2^h. */
  function Fill(n: nat, h: nat): nat
    decreases h
  {
    if h == 0 then n else 2 * Fill(n / 2, h - 1) + 1
  }

  lemma {:induction false} FillIsTheEnd(n: nat, h: nat)
    ensures Fill(n, h) == Clear(n, h) + Pow2(h) - 1
    decreases h
  {
    if h == 0 {
    } else {
      FillIsTheEnd(n / 2, h - 1);
    }
  }

  /** Two numbers are in the same block when one is between the ends of the block of the other. */
  lemma {:induction false} SameBlock(a: nat, b: nat, h: nat)
    ensures Clear(a, h) == Clear(b, h) <==> Clear(a, h) <= b < Clear(a, h) + Pow2(h)
    decreases h
  {
    if h == 0 {
    } else {
      SameBlock(a / 2, b / 2, h - 1);
    }
  }

  /** A block ends within the numbers of `k` bits its numbers are of. */
  lemma {:induction false} BlockEnd(n: nat, h: nat, k: nat)
    requires h <= k && n < Pow2(k)
    ensures Clear(n, h) + Pow2(h) <= Pow2(k)
    decreases h
  {
    if h == 0 {
    } else {
      BlockEnd(n / 2, h - 1, k - 1);
    }
  }

  lemma {:induction false} ClearIsMultiple(n: nat, h: nat) returns (q: nat)
    ensures Clear(n, h) == q * Pow2(h)
    decreases h
  {
    if h == 0 { return n; }
    q := ClearIsMultiple(n / 2, h - 1);
    MulAssociates(2, q, Pow2(h - 1));
  }

  lemma HalfMask(j: nat, k: nat)
    requires 0 < j <= k
    ensures Pow2(j - 1) <= Pow2(k - 1) && Pow2(j) <= Pow2(k)
    ensures var m: nat := Pow2(k) - Pow2(j); m % 2 == 0 && m / 2 == Pow2(k - 1) - Pow2(j - 1)
  {
    if j < k { Pow2Increases(j - 1, k - 1); }
  }

  /** Masking with all but the low `j` bits clears them. */
  lemma {:induction false} AndHighBits(a: nat, j: nat, k: nat)
    requires j <= k && a < Pow2(k)
    ensures Pow2(j) <= Pow2(k)
    ensures BitAnd(a, Pow2(k) - Pow2(j), k) == Clear(a, j)
    decreases k
  {
    if k == 0 {
    } else {
      if j == 0 {
        AndHighBits(a / 2, 0, k - 1);
        assert (Pow2(k) - 1) % 2 == 1 && (Pow2(k) - 1) / 2 == Pow2(k - 1) - 1;
      } else {
        HalfMask(j, k);
        AndHighBits(a / 2, j - 1, k - 1);
      }
    }
  }

  lemma HalfOnes(j: nat)
    requires 0 < j
    ensures (Pow2(j) - 1) % 2 == 1 && (Pow2(j) - 1) / 2 == Pow2(j - 1) - 1
  {
  }

  /** Or-ing the low `j` bits sets them. */
  lemma {:induction false} OrLowBits(a: nat, j: nat, k: nat)
    requires j <= k && a < Pow2(k)
    ensures BitOr(Clear(a, j), Pow2(j) - 1, k) == Fill(a, j)
    decreases k
  {
    if k == 0 {
    } else if j == 0 {
      OrLowBits(a / 2, 0, k - 1);
      assert BitOr(a, 0, k) == a % 2 + 2 * BitOr(a / 2, 0, k - 1);
    } else {
      HalfOnes(j);
      var c: nat := Clear(a / 2, j - 1);
      assert Clear(a, j) == 2 * c && (2 * c) / 2 == c && (2 * c) % 2 == 0;
      OrLowBits(a / 2, j - 1, k - 1);
      assert BitOr(2 * c, Pow2(j) - 1, k) == 1 + 2 * BitOr(c, Pow2(j - 1) - 1, k - 1);
    }
  }

  // ---------------------------------------------------------------- masks

  /** How many bits of byte `i` a mask of `ones` leading ones leaves out. */
  function HostBits(ones: nat, i: nat): (h: nat)
    ensures h <= 8
  {
    if ones >= 8 * (i + 1) then 0 else if ones <= 8 * i then 8 else 8 * (i + 1) - ones
  }

  function MaskByte(h: nat): Byte
    requires h <= 8
  {
    Pow2Of8();
    if h < 8 then Pow2Increases(h, 8); 256 - Pow2(h) else 0
  }

  /** net.CIDRMask(ones, 8 * size) */
  function CIDRMask(ones: nat, size: nat): (m: seq<Byte>)
    ensures |m| == size
    ensures forall i :: 0 <= i < size ==> m[i] == MaskByte(HostBits(ones, i))
  {
    seq(size, i requires 0 <= i < size => MaskByte(HostBits(ones, i)))
  }

  function ByteAnd(a: Byte, b: Byte): Byte {
    Pow2Of8();
    BitAnd(a, b, 8)
  }

  function ByteOr(a: Byte, b: Byte): Byte {
    Pow2Of8();
    BitOr(a, b, 8)
  }

  function ByteNot(a: Byte): Byte {
    255 - a
  }

  lemma MaskedByte(a: Byte, h: nat)
    requires h <= 8
    ensures ByteAnd(a, MaskByte(h)) == Clear(a, h)
  {
    Pow2Of8();
    AndHighBits(a, h, 8);
  }

  lemma FilledByte(a: Byte, h: nat)
    requires h <= 8
    ensures ByteOr(ByteAnd(a, MaskByte(h)), ByteNot(MaskByte(h))) == Fill(a, h)
  {
    MaskedByte(a, h);
    Pow2Of8();
    OrLowBits(a, h, 8);
  }

  /** net.IP.Mask, byte by byte. */
  function Masked(b: seq<Byte>, m: seq<Byte>): (r: seq<Byte>)
    requires |b| == |m|
    ensures |r| == |b| && forall i :: 0 <= i < |b| ==> r[i] == ByteAnd(b[i], m[i])
  {
    seq(|b|, i requires 0 <= i < |b| => ByteAnd(b[i], m[i]))
  }

  /** The bytes with every bit out of the mask set. */
  function Filled(b: seq<Byte>, m: seq<Byte>): (r: seq<Byte>)
    requires |b| == |m|
    ensures |r| == |b| && forall i :: 0 <= i < |b| ==> r[i] == ByteOr(b[i], ByteNot(m[i]))
  {
    seq(|b|, i requires 0 <= i < |b| => ByteOr(b[i], ByteNot(m[i])))
  }

  /** How many low bits of `size` bytes a mask of `ones` leading ones leaves out. */
  function HostSize(ones: nat, size: nat): nat {
    if ones >= 8 * size then 0 else 8 * size - ones
  }

  /** `i` with `p` zero bits after it. */
  function Shift(i: nat, p: nat): nat
    decreases p
  {
    if p == 0 then i else 2 * Shift(i, p - 1)
  }

  lemma ShiftOf8(i: nat)
    ensures Shift(i, 8) == 256 * i
  {
    assert Shift(i, 4) == 16 * i;
    assert Shift(i, 8) == 16 * Shift(i, 4);
  }

  lemma {:induction false} ClearScaled(i: nat, l: nat, p: nat, h: nat)
    requires l < Pow2(p)
    ensures Clear(Shift(i, p) + l, h + p) == Shift(Clear(i, h), p)
    decreases p
  {
    if p == 0 {
    } else {
      var x := Shift(i, p) + l;
      ClearScaled(i, l / 2, p - 1, h);
      assert x / 2 == Shift(i, p - 1) + l / 2;
      assert Clear(x, h + p) == 2 * Clear(x / 2, h + p - 1);
    }
  }

  lemma {:induction false} ClearLow(i: nat, l: nat, p: nat, h: nat)
    requires h <= p
    ensures Clear(Shift(i, p) + l, h) == Shift(i, p) + Clear(l, h)
    decreases p
  {
    if h == 0 {
    } else {
      var x := Shift(i, p) + l;
      ClearLow(i, l / 2, p - 1, h - 1);
      assert x / 2 == Shift(i, p - 1) + l / 2;
      assert Clear(x, h) == 2 * Clear(x / 2, h - 1);
    }
  }

  lemma {:induction false} ClearAll(l: nat, p: nat)
    requires l < Pow2(p)
    ensures Clear(l, p) == 0
    decreases p
  {
    if p == 0 {
    } else {
      ClearAll(l / 2, p - 1);
    }
  }

  lemma ClearNextByteFull(i: nat, l: Byte, h: nat)
    ensures Clear(256 * i + l, h + 8) == 256 * Clear(i, h) && Clear(l, 8) == 0
  {
    Pow2Of8();
    ClearScaled(i, l, 8, h);
    ShiftOf8(i);
    ShiftOf8(Clear(i, h));
    ClearAll(l, 8);
  }

  lemma ClearNextBytePart(i: nat, l: Byte, h: nat)
    requires h <= 8
    ensures Clear(256 * i + l, h) == 256 * i + Clear(l, h)
  {
    ClearLow(i, l, 8, h);
    ShiftOf8(i);
  }

  /** One more byte: it is all host bits, or the bytes before have none. */
  lemma ClearNextByte(i: nat, l: Byte, ones: nat, n: nat)
    ensures Clear(256 * i + l, HostSize(ones, n + 1)) == 256 * Clear(i, HostSize(ones, n)) + Clear(l, HostBits(ones, n))
  {
    if HostBits(ones, n) == 8 {
      ClearNextByteFull(i, l, HostSize(ones, n));
    } else {
      ClearNextBytePart(i, l, HostBits(ones, n));
    }
  }

  /** The end of a block is one less than the start of the next: what holds of the ends follows from the starts. */
  lemma FillNextByte(i: nat, l: Byte, ones: nat, n: nat)
    ensures Fill(256 * i + l, HostSize(ones, n + 1)) == 256 * Fill(i, HostSize(ones, n)) + Fill(l, HostBits(ones, n))
  {
    var h, big, low := HostSize(ones, n), HostSize(ones, n + 1), HostBits(ones, n);
    assert Fill(256 * i + l, big) == Clear(256 * i + l, big) + Pow2(big) - 1 by { FillIsTheEnd(256 * i + l, big); }
    assert Fill(i, h) == Clear(i, h) + Pow2(h) - 1 by { FillIsTheEnd(i, h); }
    assert Fill(l, low) == Clear(l, low) + Pow2(low) - 1 by { FillIsTheEnd(l, low); }
    ClearNextByte(i, l, ones, n);
    BlockOfNextByte(ones, n);
  }

  lemma BlockOfNextByte(ones: nat, n: nat)
    ensures Pow2(HostSize(ones, n + 1)) == 256 * (Pow2(HostSize(ones, n)) - 1) + Pow2(HostBits(ones, n))
  {
    Pow2Of8();
    if HostBits(ones, n) == 8 { Pow2Add(8, HostSize(ones, n)); }
  }

  lemma {:induction false} ClearedBytes(b: seq<Byte>, r: seq<Byte>, ones: nat)
    requires |r| == |b| && forall i :: 0 <= i < |b| ==> r[i] == Clear(b[i], HostBits(ones, i))
    ensures Int(r) == Clear(Int(b), HostSize(ones, |b|))
  {
    if b == [] {
      ClearAll(0, HostSize(ones, 0));
    } else {
      var n := |b| - 1;
      var h, hl := HostSize(ones, n), HostBits(ones, n);
      ClearedBytes(b[..n], r[..n], ones);
      assert r[n] == Clear(b[n], hl) && Int(r[..n]) == Clear(Int(b[..n]), h);
      ClearNextByte(Int(b[..n]), b[n], ones, n);
      assert Int(r) == 256 * Clear(Int(b[..n]), h) + Clear(b[n], hl);
      assert Int(b) == 256 * Int(b[..n]) + b[n] && |b| == n + 1;
    }
  }

  lemma {:induction false} FilledBytes(b: seq<Byte>, r: seq<Byte>, ones: nat)
    requires |r| == |b| && forall i :: 0 <= i < |b| ==> r[i] == Fill(b[i], HostBits(ones, i))
    ensures Int(r) == Fill(Int(b), HostSize(ones, |b|))
  {
    if b == [] {
    } else {
      var n := |b| - 1;
      var h, hl := HostSize(ones, n), HostBits(ones, n);
      FilledBytes(b[..n], r[..n], ones);
      assert r[n] == Fill(b[n], hl) && Int(r[..n]) == Fill(Int(b[..n]), h);
      FillNextByte(Int(b[..n]), b[n], ones, n);
      assert Int(r) == 256 * Fill(Int(b[..n]), h) + Fill(b[n], hl);
      assert Int(b) == 256 * Int(b[..n]) + b[n] && |b| == n + 1;
    }
  }

  /** Masking an address gives the start of its block. */
  lemma MaskedInt(b: seq<Byte>, ones: nat)
    ensures Int(Masked(b, CIDRMask(ones, |b|))) == Clear(Int(b), HostSize(ones, |b|))
  {
    var r := Masked(b, CIDRMask(ones, |b|));
    forall i | 0 <= i < |b| ensures r[i] == Clear(b[i], HostBits(ones, i)) { MaskedByte(b[i], HostBits(ones, i)); }
    ClearedBytes(b, r, ones);
  }

  /** Setting the bits out of the mask gives the end of its block. */
  lemma FilledInt(b: seq<Byte>, ones: nat)
    ensures var m, h := CIDRMask(ones, |b|), HostSize(ones, |b|);
            Int(Filled(Masked(b, m), m)) == Clear(Int(b), h) + Pow2(h) - 1
  {
    var m := CIDRMask(ones, |b|);
    var r := Filled(Masked(b, m), m);
    forall i | 0 <= i < |b| ensures r[i] == Fill(b[i], HostBits(ones, i)) { FilledByte(b[i], HostBits(ones, i)); }
    FilledBytes(b, r, ones);
    FillIsTheEnd(Int(b), HostSize(ones, |b|));
  }
}
