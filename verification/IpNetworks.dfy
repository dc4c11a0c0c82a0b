/**
  Addresses and CIDR networks as the ipaddress library has them: an address is a version
  and a number, a network is a masked base and a mask, and membership is a bitwise AND
  (section 3.1 of RFC 4632; section 2.3 of RFC 4291).  The bitwise operations are written
  out on naturals, and proved to mean interval membership.
*/
module IpNetworks {
  import opened Numbers

  datatype Version = V4 | V6 {
    function Width(): nat { if V4? then 32 else 128 }
  }

  datatype Address = Address(version: Version, value: nat)

  predicate ValidAddress(a: Address) {
    a.value < Pow2(a.version.Width())
  }

  /** a & b, bit by bit from the lowest. */
  function And(a: nat, b: nat): nat
    decreases a
  {
    if a == 0 || b == 0 then 0 else 2 * And(a / 2, b / 2) + if a % 2 == 1 && b % 2 == 1 then 1 else 0
  }

  /** a ^ b, bit by bit from the lowest. */
  function Xor(a: nat, b: nat): nat
    decreases a + b
  {
    if a == 0 && b == 0 then 0 else 2 * Xor(a / 2, b / 2) + if a % 2 != b % 2 then 1 else 0
  }

  function AllOnes(width: nat): nat {
    Pow2(width) - 1
  }

  /** ALL_ONES ^ (ALL_ONES >> prefix) */
  function Netmask(width: nat, prefix: nat): nat
    requires prefix <= width
  {
    Xor(AllOnes(width), AllOnes(width) / Pow2(prefix))
  }

  datatype Network = Network(version: Version, base: nat, mask: nat)

  /** ip_network(text, strict=False): host bits of the given address are masked off. */
  function MakeNetwork(address: Address, prefix: nat): Network
    requires prefix <= address.version.Width()
  {
    var mask := Netmask(address.version.Width(), prefix);
    Network(address.version, And(address.value, mask), mask)
  }

  /** `address in network` */
  predicate Contains(n: Network, a: Address) {
    n.version == a.version && And(a.value, n.mask) == n.base
  }

  // ------------------------------------------------------------------ what the bits mean

  lemma {:induction false} Pow2Splits(a: nat, b: nat)
    ensures Pow2(a + b) == Pow2(a) * Pow2(b)
  {
    if a > 0 {
      Pow2Splits(a - 1, b);
      assert Pow2(a + b) == 2 * Pow2(a + b - 1);
    }
  }

  lemma HalvePow2(n: nat)
    requires n > 0
    ensures Pow2(n) / 2 == Pow2(n - 1) && (Pow2(n) - 1) / 2 == Pow2(n - 1) - 1 && (Pow2(n) - 1) % 2 == 1
  {
  }

  lemma DivideExactly(q: nat, d: nat, r: nat)
    requires r < d
    ensures (q * d + r) / d == q && (q * d + r) % d == r
  {
    var x := q * d + r;
    MultiplesAreApart(x / d, q, d);
    MultiplesAreApart(q, x / d, d);
    assert x == (x / d) * d + x % d;
  }

  lemma MultiplesAreApart(a: nat, b: nat, d: nat)
    ensures a < b ==> a * d + d <= b * d
  {
    if a < b {
      var c := b - a - 1;
      assert b == a + 1 + c;
      assert (a + 1 + c) * d == a * d + d + c * d;
    }
  }

  lemma OneBelowAMultiple(q: nat, d: nat)
    requires q > 0 && d > 0
    ensures (q * d - 1) / d == q - 1
  {
    DivideExactly(q - 1, d, d - 1);
    assert (q - 1) * d + (d - 1) == q * d - 1;
  }

  /** ALL_ONES >> prefix */
  lemma ShiftedOnes(width: nat, prefix: nat)
    requires prefix <= width
    ensures AllOnes(width) / Pow2(prefix) == AllOnes(width - prefix)
  {
    Pow2Splits(width - prefix, prefix);
    OneBelowAMultiple(Pow2(width - prefix), Pow2(prefix));
  }

  /** width ones against the low `host` ones leave the high ones. */
  lemma {:induction false} XorOfOnes(width: nat, host: nat)
    requires host <= width
    ensures Xor(AllOnes(width), AllOnes(host)) == Pow2(width) - Pow2(host)
  {
    if width > 0 {
      var a, b := AllOnes(width), AllOnes(host);
      HalvePow2(width);
      assert a / 2 == AllOnes(width - 1) && a % 2 == 1;
      assert Xor(a, b) == 2 * Xor(a / 2, b / 2) + if a % 2 != b % 2 then 1 else 0;
      if host > 0 {
        HalvePow2(host);
        assert b / 2 == AllOnes(host - 1) && b % 2 == 1;
        XorOfOnes(width - 1, host - 1);
      } else {
        assert b == 0;
        XorOfOnes(width - 1, 0);
      }
    }
  }

  lemma MaskIsHighOnes(width: nat, prefix: nat)
    requires prefix <= width
    ensures Netmask(width, prefix) == HighOnes(width, width - prefix)
  {
    ShiftedOnes(width, prefix);
    XorOfOnes(width, width - prefix);
  }

  /** The mask with the low `host` bits clear. */
  function HighOnes(width: nat, host: nat): nat
    requires host <= width
  {
    Pow2Grows(host, width);
    Pow2(width) - Pow2(host)
  }

  lemma HalveHighOnes(width: nat, host: nat)
    requires host < width
    ensures HighOnes(width, host) > 0
    ensures HighOnes(width, host) / 2 == HighOnes(width - 1, if host == 0 then 0 else host - 1)
    ensures HighOnes(width, host) % 2 == if host == 0 then 1 else 0
  {
    Pow2Grows(host, width);
    HalvePow2(width);
  }

  /** The low `host` bits of x. */
  function LowBits(x: nat, host: nat): nat {
    if host == 0 then 0 else 2 * LowBits(x / 2, host - 1) + x % 2
  }

  lemma {:induction false} LowBitsIsRemainder(x: nat, host: nat)
    ensures LowBits(x, host) == x % Pow2(host)
  {
    if host > 0 {
      LowBitsIsRemainder(x / 2, host - 1);
      RemainderOfDouble(x, Pow2(host - 1));
    }
  }

  lemma {:induction false} AllBitsAreLow(x: nat, host: nat)
    requires x < Pow2(host)
    ensures LowBits(x, host) == x
  {
    if host > 0 { AllBitsAreLow(x / 2, host - 1); }
  }

  lemma {:induction false} MaskClearsLowBits(x: nat, width: nat, host: nat)
    requires host <= width && x < Pow2(width)
    ensures And(x, HighOnes(width, host)) == x - LowBits(x, host)
    decreases width
  {
    if width == host {
      AllBitsAreLow(x, host);
    } else if x == 0 {
      AllBitsAreLow(x, host);
    } else {
      var m := HighOnes(width, host);
      HalveHighOnes(width, host);
      assert And(x, m) == 2 * And(x / 2, m / 2) + if x % 2 == 1 && m % 2 == 1 then 1 else 0;
      MaskClearsLowBits(x / 2, width - 1, if host == 0 then 0 else host - 1);
    }
  }

  /** Masking with high ones rounds down to a multiple of the block size. */
  lemma MaskRoundsDown(x: nat, width: nat, host: nat)
    requires host <= width && x < Pow2(width)
    ensures And(x, HighOnes(width, host)) == x - x % Pow2(host)
  {
    MaskClearsLowBits(x, width, host);
    LowBitsIsRemainder(x, host);
  }

  lemma RemainderOfDouble(x: nat, d: nat)
    requires d > 0
    ensures x % (2 * d) == 2 * ((x / 2) % d) + x % 2
  {
    var q, r := (x / 2) / d, (x / 2) % d;
    assert x / 2 == q * d + r;
    assert x == q * (2 * d) + (2 * r + x % 2);
    DivideExactly(q, 2 * d, 2 * r + x % 2);
  }

  // ------------------------------------------------------------------ membership

  /** The addresses a CIDR block stands for: the 2^(width - prefix) from its first one. */
  predicate InBlock(a: Address, given: Address, prefix: nat)
    requires prefix <= given.version.Width()
  {
    var size := Pow2(given.version.Width() - prefix);
    var first := given.value - given.value % size;
    a.version == given.version && first <= a.value < first + size
  }

  /**
    Mask membership is interval membership, for both versions, every prefix length and
    whatever host bits were configured.
  */
  lemma ContainsIffInBlock(given: Address, prefix: nat, a: Address)
    requires ValidAddress(given) && ValidAddress(a) && prefix <= given.version.Width()
    ensures Contains(MakeNetwork(given, prefix), a) <==> InBlock(a, given, prefix)
  {
    if a.version == given.version {
      MaskedEqualIffSameBlock(given.version.Width(), prefix, given.value, a.value);
    }
  }

  lemma MaskedEqualIffSameBlock(width: nat, prefix: nat, x: nat, y: nat)
    requires prefix <= width && x < Pow2(width) && y < Pow2(width)
    ensures
      var mask, size := Netmask(width, prefix), Pow2(width - prefix);
      And(y, mask) == And(x, mask) <==> x - x % size <= y < x - x % size + size
  {
    MaskIsHighOnes(width, prefix);
    MaskRoundsDown(x, width, width - prefix);
    MaskRoundsDown(y, width, width - prefix);
    SameBlock(x, y, Pow2(width - prefix));
  }

  lemma SameBlock(x: nat, y: nat, size: nat)
    requires size > 0
    ensures x - x % size == y - y % size <==> x - x % size <= y < x - x % size + size
  {
    var first := x - x % size;
    if first <= y < first + size {
      assert first == (x / size) * size;
      DivideExactly(x / size, size, y - first);
    }
  }

  /** Host bits do not matter: any address of a block written with its prefix length means the same network. */
  lemma HostBitsDoNotMatter(given: Address, prefix: nat, other: Address)
    requires ValidAddress(given) && ValidAddress(other) && prefix <= given.version.Width()
    requires InBlock(other, given, prefix)
    ensures MakeNetwork(other, prefix) == MakeNetwork(given, prefix)
  {
    ContainsIffInBlock(given, prefix, other);
  }

  /** The narrowest prefix is the one address. */
  lemma HostPrefixIsTheAddress(given: Address, a: Address)
    requires ValidAddress(given) && ValidAddress(a)
    ensures Contains(MakeNetwork(given, given.version.Width()), a) <==> a == given
  {
    ContainsIffInBlock(given, given.version.Width(), a);
    assert Pow2(0) == 1;
  }

  /** A longer prefix selects fewer addresses. */
  lemma LongerPrefixIsNarrower(given: Address, p: nat, q: nat, a: Address)
    requires ValidAddress(given) && ValidAddress(a) && p <= q <= given.version.Width()
    ensures Contains(MakeNetwork(given, q), a) ==> Contains(MakeNetwork(given, p), a)
  {
    ContainsIffInBlock(given, q, a);
    ContainsIffInBlock(given, p, a);
    if InBlock(a, given, q) {
      BlockWidens(given, p, q, a);
    }
  }

  lemma BlockWidens(given: Address, p: nat, q: nat, a: Address)
    requires p <= q <= given.version.Width() && InBlock(a, given, q)
    ensures InBlock(a, given, p)
  {
    var width := given.version.Width();
    var small, k := Pow2(width - q), Pow2(q - p);
    Pow2Splits(q - p, width - q);
    assert (q - p) + (width - q) == width - p;
    BlocksNest(given.value, small, k);
  }

  lemma BlocksNest(x: nat, small: nat, k: nat)
    requires small > 0 && k > 0
    ensures k * small > 0
    ensures x - x % (k * small) <= x - x % small && x - x % small + small <= x - x % (k * small) + k * small
  {
    var p, rest := x / small, x % small;
    var q, r := p / k, p % k;
    Recompose(x, small);
    Recompose(p, k);
    Regroup(q, k, r, small);
    MultiplesAreApart(r, k, small);
    NestAt(x, small, k * small, q, r, rest);
  }

  lemma Recompose(x: nat, d: nat)
    requires d > 0
    ensures x == (x / d) * d + x % d
  {
  }

  lemma NestAt(x: nat, small: nat, large: nat, q: nat, r: nat, rest: nat)
    requires small > 0 && rest == x % small && rest < small && r * small + small <= large
    requires x == q * large + r * small + rest
    ensures large > 0
    ensures x - x % large <= x - rest && x - rest + small <= x - x % large + large
  {
    var low := r * small + rest;
    DivideExactly(q, large, low);
    assert x == q * large + low;
    assert x % large == low;
  }

  lemma Regroup(q: nat, k: nat, r: nat, small: nat)
    ensures (q * k + r) * small == q * (k * small) + r * small
  {
  }
}
