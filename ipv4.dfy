/** IPv4 addresses and prefix masks, as the address generator uses them.

    An address is a 32-bit unsigned value. A mask is given by its prefix
    length: a mask of length `len` keeps the `len` high-order bits of an
    address (the network part) and clears the `32 - len` low-order bits
    (the host part). A network of that length therefore spans
    `HostSpan(len) == 1 << (32 - len)` consecutive addresses, and for every
    address `a`:
      a & mask   ==  a - a % HostSpan(len)   (NetworkOf)
      a & ~mask  ==  a % HostSpan(len)       (the host part)
    The model works with these arithmetic forms. */
module Ipv4 {

  /** Number of distinct 32-bit addresses. */
  const AddressSpace: nat := 0x1_0000_0000

  type Ipv4Address = a: int | 0 <= a < 0x1_0000_0000

  /** An Ipv4Mask, identified by the number of leading one bits. */
  type PrefixLength = n: int | 0 <= n <= 32

  function Pow2(n: nat): (p: nat)
    ensures p >= 1
  {
    if n == 0 then 1 else 2 * Pow2(n - 1)
  }

  lemma {:induction false} Pow2Add(m: nat, n: nat)
    ensures Pow2(m + n) == Pow2(m) * Pow2(n)
  {
    if m > 0 {
      Pow2Add(m - 1, n);
      assert Pow2(m + n) == 2 * Pow2(m - 1 + n);
    }
  }

  lemma Pow2Of32()
    ensures Pow2(32) == AddressSpace
  {
    assert Pow2(8) == 256;
    Pow2Add(8, 8);
    Pow2Add(16, 16);
  }

  /** The network step for a prefix length: `1 << (32 - len)`. */
  function HostSpan(len: PrefixLength): (s: nat)
    ensures s >= 1
  {
    Pow2(32 - len)
  }

  /** There are `1 << len` networks of prefix length `len`. */
  lemma SpanCount(len: PrefixLength)
    ensures HostSpan(len) * Pow2(len) == AddressSpace
  {
    Pow2Add(32 - len, len);
    Pow2Of32();
  }

  /** The span of a shorter prefix is a whole number of spans of a longer one. */
  lemma SpanMultiple(short: PrefixLength, long: PrefixLength)
    requires short <= long
    ensures HostSpan(short) == HostSpan(long) * Pow2(long - short)
  {
    Pow2Add(32 - long, long - short);
  }

  /* Euclidean division by a positive step `s`, on plain integers. */

  lemma DivMod(a: int, s: int)
    requires s > 0
    ensures a == (a / s) * s + a % s && 0 <= a % s < s
  {
  }

  lemma MulMonotone(x: int, y: int, s: int)
    requires x <= y && s >= 0
    ensures x * s <= y * s
  {
    assert y * s - x * s == (y - x) * s;
  }

  /** Quotient and remainder are determined by `a == q * s + r`. */
  lemma DivModUnique(a: int, s: int, q: int, r: int)
    requires s > 0 && 0 <= r < s && a == q * s + r
    ensures a / s == q && a % s == r
  {
    var q', r' := a / s, a % s;
    DivMod(a, s);
    if q' < q {
      MulMonotone(q' + 1, q, s);
      assert false;
    } else if q < q' {
      MulMonotone(q + 1, q', s);
      assert false;
    }
  }

  /** Rounding down to a multiple of `s` stays a multiple of `s` within one
      step below `a`. */
  lemma RoundDown(a: int, s: int)
    requires s > 0 && a >= 0
    ensures (a - a % s) % s == 0 && 0 <= a - a % s <= a < a - a % s + s
  {
    DivMod(a, s);
    DivModUnique(a - a % s, s, a / s, 0);
  }

  /** A multiple of `s` within one step below `a` is `a` rounded down. */
  lemma RoundDownUnique(n: int, a: int, s: int)
    requires s > 0 && n % s == 0 && n <= a < n + s
    ensures a % s == a - n
  {
    DivMod(n, s);
    var q := n / s;
    DivModUnique(a, s, q, a - n);
  }

  /** Adding one step to a multiple of `s` gives a multiple of `s`. */
  lemma StepMultiple(n: int, s: int)
    requires s > 0 && n % s == 0
    ensures (n + s) % s == 0
  {
    DivMod(n, s);
    var q := n / s;
    assert (q + 1) * s == n + s;
    DivModUnique(n + s, s, q + 1, 0);
  }

  /** A non-negative multiple of `s` below `s * p` leaves a whole step above it. */
  lemma RoomBelow(n: int, h: int, s: int, p: int)
    requires s > 0 && n % s == 0 && 0 <= n < s * p && 0 <= h < s
    ensures n + h < s * p
  {
    DivMod(n, s);
    var q := n / s;
    if p <= q {
      MulMonotone(p, q, s);
      assert false;
    }
    MulMonotone(q + 1, p, s);
  }

  /** A multiple of `t * k` is a multiple of `t`. */
  lemma MultipleOfFactor(n: int, t: int, k: int)
    requires t > 0 && k > 0 && n % (t * k) == 0
    ensures n % t == 0
  {
    DivMod(n, t * k);
    var q := n / (t * k);
    assert n == (q * k) * t;
    DivModUnique(n, t, q * k, 0);
  }

  /** Every multiple of `s` that is at most `a` is at most `a` rounded down. */
  lemma LargestMultiple(n: int, a: int, s: int)
    requires s > 0 && n % s == 0 && n <= a
    ensures n <= a - a % s
  {
    DivMod(n, s);
    DivMod(a, s);
    var qn, qa := n / s, a / s;
    if qa < qn {
      MulMonotone(qa + 1, qn, s);
      assert false;
    }
    MulMonotone(qn, qa, s);
  }

  /* Networks and host parts. */

  /** `a` has no bits set outside the network part of a mask of this length. */
  predicate IsNetwork(a: Ipv4Address, len: PrefixLength)
  {
    a % HostSpan(len) == 0
  }

  /** `h` has no bits set inside the network part of a mask of this length. */
  predicate FitsHost(h: int, len: PrefixLength)
  {
    0 <= h < HostSpan(len)
  }

  /** `a & mask`: the network that `a` belongs to under a mask of this length. */
  function NetworkOf(a: Ipv4Address, len: PrefixLength): (n: Ipv4Address)
    ensures IsNetwork(n, len)
    ensures n <= a < n + HostSpan(len)
  {
    RoundDown(a, HostSpan(len));
    a - a % HostSpan(len)
  }

  /** The network that contains `a` is the only network address within one
      network step below `a`. */
  lemma NetworkOfUnique(n: Ipv4Address, a: Ipv4Address, len: PrefixLength)
    requires IsNetwork(n, len) && n <= a < n + HostSpan(len)
    ensures NetworkOf(a, len) == n
  {
    RoundDownUnique(n, a, HostSpan(len));
  }

  /** A network address plus a host offset that fits the mask is an address
      (no carry out of 32 bits) inside that network: `net | h` with
      `net & h == 0`. */
  lemma WithinNetwork(net: Ipv4Address, h: int, len: PrefixLength)
    requires IsNetwork(net, len) && FitsHost(h, len)
    ensures net + h < AddressSpace
    ensures NetworkOf(net + h, len) == net
  {
    SpanCount(len);
    RoomBelow(net, h, HostSpan(len), Pow2(len));
    NetworkOfUnique(net, net + h, len);
  }

  /** Stepping a network address by one network step, when it does not carry
      out of 32 bits, gives another network address of the same length. */
  lemma NextNetworkIsNetwork(net: Ipv4Address, len: PrefixLength)
    requires IsNetwork(net, len) && net + HostSpan(len) < AddressSpace
    ensures IsNetwork(net + HostSpan(len), len)
  {
    StepMultiple(net, HostSpan(len));
  }

  /** A network address of a shorter prefix is also a network address of
      every longer prefix. */
  lemma CoarserIsNetwork(n: Ipv4Address, short: PrefixLength, long: PrefixLength)
    requires short <= long && IsNetwork(n, short)
    ensures IsNetwork(n, long)
  {
    SpanMultiple(short, long);
    MultipleOfFactor(n, HostSpan(long), Pow2(long - short));
  }

  /** NetworkOf is the largest network address that is at most `a`. */
  lemma NetworkOfIsLargest(n: Ipv4Address, a: Ipv4Address, len: PrefixLength)
    requires IsNetwork(n, len) && n <= a
    ensures n <= NetworkOf(a, len)
  {
    LargestMultiple(n, a, HostSpan(len));
  }

  /** Masks nest: masking with a longer prefix and then with a shorter one is
      the same as masking with the shorter one alone. */
  lemma NetworkOfNested(a: Ipv4Address, short: PrefixLength, long: PrefixLength)
    requires short <= long
    ensures NetworkOf(NetworkOf(a, long), short) == NetworkOf(a, short)
  {
    var ns, nl := NetworkOf(a, short), NetworkOf(a, long);
    CoarserIsNetwork(ns, short, long);
    NetworkOfIsLargest(ns, a, long);
    SpanMultiple(short, long);
    MulMonotone(1, Pow2(long - short), HostSpan(long));
    NetworkOfUnique(ns, nl, short);
  }

  /** A /32 network is a single address. */
  lemma FullPrefixNetworks()
    ensures forall a: Ipv4Address :: NetworkOf(a, 32) == a
  {
    assert HostSpan(32) == 1;
  }

  /** The /0 mask has the single network 0.0.0.0. */
  lemma EmptyPrefixNetworks()
    ensures forall a: Ipv4Address :: NetworkOf(a, 0) == 0
  {
    Pow2Of32();
    forall a: Ipv4Address
      ensures NetworkOf(a, 0) == 0
    {
      NetworkOfUnique(0, a, 0);
    }
  }
}
