/** Address blocks: comparing the leading bits of two converted addresses. */
module Cidr {
  import opened BotTree

  /** An address in network order: four bytes or sixteen. */
  type Address = seq<bv8>

  /** The conversion from text, for the family asked for; not part of this model. */
  type Converter = (bool, string) -> Option<Address>

  function Width(six: bool): nat {
    if six then 128 else 32
  }

  ghost predicate Converts(pton: Converter) {
    forall six, s :: pton(six, s).Some? ==> |pton(six, s).value| == if six then 16 else 4
  }

  /** Bit `i` of a byte, the most significant first. */
  predicate ByteBit(b: bv8, i: int) {
    match i
    case 0 => b & 0x80 != 0
    case 1 => b & 0x40 != 0
    case 2 => b & 0x20 != 0
    case 3 => b & 0x10 != 0
    case 4 => b & 0x08 != 0
    case 5 => b & 0x04 != 0
    case 6 => b & 0x02 != 0
    case _ => b & 0x01 != 0
  }

  predicate Bit(a: Address, i: int)
    requires 0 <= i < 8 * |a|
  {
    ByteBit(a[i / 8], i % 8)
  }

  /** The two addresses agree in their first `count` bits. */
  predicate SamePrefix(a: Address, b: Address, count: int)
    requires |a| == |b| && count <= 8 * |a|
  {
    forall i | 0 <= i < count :: Bit(a, i) == Bit(b, i)
  }

  lemma SameByte(x: bv8, y: bv8)
    ensures x == y <==> forall i | 0 <= i < 8 :: ByteBit(x, i) == ByteBit(y, i)
  {
    if forall i | 0 <= i < 8 :: ByteBit(x, i) == ByteBit(y, i) {
      assert ByteBit(x, 0) == ByteBit(y, 0) && ByteBit(x, 1) == ByteBit(y, 1) && ByteBit(x, 2) == ByteBit(y, 2);
      assert ByteBit(x, 3) == ByteBit(y, 3) && ByteBit(x, 4) == ByteBit(y, 4) && ByteBit(x, 5) == ByteBit(y, 5);
      assert ByteBit(x, 6) == ByteBit(y, 6) && ByteBit(x, 7) == ByteBit(y, 7);
    }
  }

  /** The byte shifted right. */
  function Shift(b: bv8, k: nat): bv8
    requires k <= 7
  {
    match k
    case 0 => b
    case 1 => b >> 1
    case 2 => b >> 2
    case 3 => b >> 3
    case 4 => b >> 4
    case 5 => b >> 5
    case 6 => b >> 6
    case _ => b >> 7
  }

  lemma HighBits(x: bv8, y: bv8)
    ensures x >> 6 == y >> 6 <==> x >> 7 == y >> 7 && ByteBit(x, 1) == ByteBit(y, 1)
    ensures x >> 5 == y >> 5 <==> x >> 6 == y >> 6 && ByteBit(x, 2) == ByteBit(y, 2)
    ensures x >> 4 == y >> 4 <==> x >> 5 == y >> 5 && ByteBit(x, 3) == ByteBit(y, 3)
  {
  }

  lemma LowBits(x: bv8, y: bv8)
    ensures x >> 3 == y >> 3 <==> x >> 4 == y >> 4 && ByteBit(x, 4) == ByteBit(y, 4)
    ensures x >> 2 == y >> 2 <==> x >> 3 == y >> 3 && ByteBit(x, 5) == ByteBit(y, 5)
    ensures x >> 1 == y >> 1 <==> x >> 2 == y >> 2 && ByteBit(x, 6) == ByteBit(y, 6)
  {
  }

  /** Shifting one bit less keeps one bit more. */
  lemma OneBitMore(x: bv8, y: bv8, k: nat)
    requires 1 <= k <= 6
    ensures Shift(x, k) == Shift(y, k) <==> Shift(x, k + 1) == Shift(y, k + 1) && ByteBit(x, 7 - k) == ByteBit(y, 7 - k)
  {
    hide ByteBit;
    HighBits(x, y);
    LowBits(x, y);
  }

  predicate SameStart(x: bv8, y: bv8, n: nat)
    requires n <= 8
  {
    forall i | 0 <= i < n :: ByteBit(x, i) == ByteBit(y, i)
  }

  lemma StartStep(x: bv8, y: bv8, n: nat)
    requires 0 < n <= 8
    ensures SameStart(x, y, n) <==> SameStart(x, y, n - 1) && ByteBit(x, n - 1) == ByteBit(y, n - 1)
  {
  }

  /** Shifting the low bits out leaves just the first `8 - k`. */
  lemma {:induction false} SameHighBits(x: bv8, y: bv8, k: nat)
    requires 1 <= k <= 7
    ensures Shift(x, k) == Shift(y, k) <==> SameStart(x, y, 8 - k)
    decreases 7 - k
  {
    hide SameStart;
    StartStep(x, y, 8 - k);
    if k == 7 {
      assert x >> 7 == y >> 7 <==> ByteBit(x, 0) == ByteBit(y, 0);
      NoStart(x, y);
    } else {
      hide Shift, ByteBit;
      SameHighBits(x, y, k + 1);
      OneBitMore(x, y, k);
    }
  }

  lemma NoStart(x: bv8, y: bv8)
    ensures SameStart(x, y, 0)
  {
  }

  lemma BitInByte(a: Address, c: nat, i: nat)
    requires c < |a| && i < 8
    ensures Bit(a, 8 * c + i) == ByteBit(a[c], i)
  {
  }

  lemma PrefixStep(a: Address, b: Address, k: nat)
    requires |a| == |b| && k < 8 * |a|
    ensures SamePrefix(a, b, k + 1) <==> SamePrefix(a, b, k) && Bit(a, k) == Bit(b, k)
  {
  }

  /** A prefix that ends inside byte `c` is the bytes before it and the start of that byte. */
  lemma {:induction false} PrefixInByte(a: Address, b: Address, c: nat, r: nat)
    requires |a| == |b| && c < |a| && r <= 8
    ensures SamePrefix(a, b, 8 * c + r) <==> SamePrefix(a, b, 8 * c) && SameStart(a[c], b[c], r)
  {
    hide Bit, ByteBit, SamePrefix;
    if r > 0 {
      PrefixInByte(a, b, c, r - 1);
      PrefixStep(a, b, 8 * c + (r - 1));
      BitInByte(a, c, r - 1);
      BitInByte(b, c, r - 1);
      StartStep(a[c], b[c], r);
    }
  }

  lemma PrefixByByte(a: Address, b: Address, c: nat)
    requires |a| == |b| && c < |a|
    ensures SamePrefix(a, b, 8 * c + 8) <==> SamePrefix(a, b, 8 * c) && a[c] == b[c]
  {
    PrefixInByte(a, b, c, 8);
    SameByte(a[c], b[c]);
  }

  lemma PrefixPartByte(a: Address, b: Address, c: nat, r: nat)
    requires |a| == |b| && c < |a| && 1 <= r <= 7
    ensures SamePrefix(a, b, 8 * c + r) <==> SamePrefix(a, b, 8 * c) && Shift(a[c], 8 - r) == Shift(b[c], 8 - r)
  {
    hide SamePrefix, ByteBit, SameStart, Shift;
    PrefixInByte(a, b, c, r);
    SameHighBits(a[c], b[c], 8 - r);
  }

  /** Addresses agree that far exactly if their whole bytes do and the next byte differs at most in the bits left over. */
  lemma {:induction false} PrefixInBytes(a: Address, b: Address, n: nat)
    requires |a| == |b| && n <= 8 * |a|
    ensures SamePrefix(a, b, n) <==>
      (forall i | 0 <= i < n / 8 :: a[i] == b[i]) && (n % 8 > 0 ==> a[n / 8] ^ b[n / 8] < LeftOver(n % 8))
  {
    hide SamePrefix, Shift, LeftOver;
    if n >= 8 {
      PrefixInBytes(a, b, n / 8 * 8 - 8);
      PrefixByByte(a, b, n / 8 - 1);
    } else {
      NoPrefix(a, b);
    }
    if n % 8 > 0 {
      PrefixPartByte(a, b, n / 8, n % 8);
      SmallDifference(a[n / 8], b[n / 8], n % 8);
    }
  }

  /** What the bits behind the first `r` of a byte count up to. */
  function LeftOver(r: nat): bv8
    requires 0 < r < 8
  {
    if r == 1 then 128 else if r == 2 then 64 else if r == 3 then 32 else if r == 4 then 16
    else if r == 5 then 8 else if r == 6 then 4 else 2
  }

  lemma SmallDifference(x: bv8, y: bv8, r: nat)
    requires 0 < r < 8
    ensures Shift(x, 8 - r) == Shift(y, 8 - r) <==> x ^ y < LeftOver(r)
  {
  }

  predicate Six(m: string, n: string) {
    ':' in m || ':' in n
  }

  /** Both texts convert, the count is a possible prefix length other than zero, and that many bits agree. */
  ghost predicate CidrAgrees(pton: Converter, m: string, n: string, count: int)
    requires Converts(pton)
  {
    var six := Six(m, n);
    && 1 <= count <= Width(six)
    && pton(six, m).Some? && pton(six, n).Some?
    && SamePrefix(pton(six, m).value, pton(six, n).value, count)
  }

  method CidrMatch(pton: Converter, m: string, n: string, count: int) returns (r: int)
    requires Converts(pton)
    ensures r == 0 || r == 1
    ensures r == 1 <==> CidrAgrees(pton, m, n, count)
  {
    hide SamePrefix, ByteBit, Bit, Shift;
    if count < 1 {
      return 0;
    }
    var six := false;
    if ':' in m || ':' in n {
      six := true;
      if count > 128 {
        return 0;
      }
    } else if count > 32 {
      return 0;
    }
    var block, addr := pton(six, m), pton(six, n);
    if block.None? || addr.None? {
      return 0;
    }
    var a, b := block.value, addr.value;
    var c := 0;
    NoPrefix(a, b);
    while c < count / 8
      invariant 0 <= c <= count / 8
      invariant SamePrefix(a, b, 8 * c)
    {
      PrefixByByte(a, b, c);
      if a[c] != b[c] {
        ShorterPrefix(a, b, 8 * c + 8, count);
        return 0;
      }
      c := c + 1;
    }
    if count % 8 == 0 {
      return 1;
    }
    var k := 8 - count % 8;
    PrefixPartByte(a, b, c, count % 8);
    return if Shift(a[c], k) == Shift(b[c], k) then 1 else 0;
  }

  lemma NoPrefix(a: Address, b: Address)
    requires |a| == |b|
    ensures SamePrefix(a, b, 0)
  {
  }

  lemma ShorterPrefix(a: Address, b: Address, k: int, count: int)
    requires |a| == |b| && k <= count <= 8 * |a|
    ensures SamePrefix(a, b, count) ==> SamePrefix(a, b, k)
  {
  }

  // ----- blocks

  /** Every address of the block `b`/`q` lies in the block `a`/`p`. */
  ghost predicate Contains(a: Address, p: int, b: Address, q: int)
    requires |a| == |b| && p <= 8 * |a| && q <= 8 * |a|
  {
    forall x: Address | |x| == |a| && SamePrefix(x, b, q) :: SamePrefix(x, a, p)
  }

  function FlipByte(b: bv8, i: int): bv8 {
    match i
    case 0 => b ^ 0x80
    case 1 => b ^ 0x40
    case 2 => b ^ 0x20
    case 3 => b ^ 0x10
    case 4 => b ^ 0x08
    case 5 => b ^ 0x04
    case 6 => b ^ 0x02
    case _ => b ^ 0x01
  }

  lemma FlipsOne(b: bv8, i: int)
    requires 0 <= i < 8
    ensures forall j | 0 <= j < 8 :: ByteBit(FlipByte(b, i), j) == if i == j then !ByteBit(b, j) else ByteBit(b, j)
  {
  }

  /** An address that differs from `b` in bit `i` only. */
  lemma Flipped(b: Address, i: int) returns (x: Address)
    requires 0 <= i < 8 * |b|
    ensures |x| == |b| && Bit(x, i) != Bit(b, i)
    ensures forall j | 0 <= j < 8 * |b| && j != i :: Bit(x, j) == Bit(b, j)
  {
    FlipsOne(b[i / 8], i % 8);
    x := b[i / 8 := FlipByte(b[i / 8], i % 8)];
    forall j | 0 <= j < 8 * |b| && j != i ensures Bit(x, j) == Bit(b, j) {
      if j / 8 == i / 8 {
        assert j % 8 != i % 8;
      }
    }
  }

  /** Comparing prefix lengths and then the shorter prefix decides containment of blocks. */
  lemma BlockContainment(a: Address, p: int, b: Address, q: int)
    requires |a| == |b| && 0 <= p <= 8 * |a| && 0 <= q <= 8 * |a|
    ensures p <= q && SamePrefix(a, b, p) <==> Contains(a, p, b, q)
  {
    hide Bit;
    if p <= q && SamePrefix(a, b, p) {
      forall x: Address | |x| == |a| && SamePrefix(x, b, q) ensures SamePrefix(x, a, p) {}
    }
    if Contains(a, p, b, q) {
      assert SamePrefix(b, b, q);
      assert SamePrefix(b, a, p);
      if q < p { LongerPrefix(a, p, b, q); }
    }
  }

  /** A longer prefix cuts the block: flip the first bit the shorter one leaves free. */
  lemma LongerPrefix(a: Address, p: int, b: Address, q: int)
    requires |a| == |b| && 0 <= q < p <= 8 * |a| && SamePrefix(b, a, p)
    ensures !Contains(a, p, b, q)
  {
    hide Bit;
    var x := Flipped(b, q);
    assert SamePrefix(x, b, q);
    assert Bit(b, q) == Bit(a, q);
    assert !SamePrefix(x, a, p);
  }
}
