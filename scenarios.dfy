/** Callers of the address generator: what a sequence of calls yields,
    derived from the contracts of Ipv4AddressGenerator alone. Addresses are
    written as integers; 167837952 is 10.1.1.0. */
module GeneratorScenarios {
  import opened Ipv4
  import opened AddressGenerator

  /** After Init, both the peek and the first NextAddress give the base
      address inside the configured network. */
  method InitThenFirstAddress(g: Ipv4AddressGenerator, net: Ipv4Address, mask: PrefixLength, addr: Ipv4Address)
    returns (init: Outcome<()>, peek: Outcome<Ipv4Address>, first: Outcome<Ipv4Address>)
    requires g.Valid()
    modifies g
    ensures g.Valid()
    ensures init.Ok? ==> peek.Ok? && peek.value == net + addr && NetworkOf(peek.value, mask) == net
    ensures init.Ok? && peek.Ok? && peek.value !in old(g.ledger) ==> first == peek
  {
    init := g.Init(net, mask, addr);
    peek := g.GetAddress(mask);
    first := g.NextAddress(mask);
  }

  /** Base host parts are kept per mask: Init(0.0.0.0, /24, 0.0.0.200)
      leaves the /30 base at 0, so NextNetwork(/30) gives 0.0.0.4 and its
      next address is 0.0.0.4 itself. */
  method ExampleBasePerMask() returns (n: Outcome<Ipv4Address>, peek: Outcome<Ipv4Address>)
    ensures n == Ok(4) && peek == Ok(4)
  {
    var g := new Ipv4AddressGenerator();
    assert HostSpan(24) == 256;
    var init := g.Init(0, 24, 200);
    assert init.Ok? && g.networks[30] == 0 && g.bases[30] == 0;
    assert HostSpan(30) == 4;
    n := g.NextNetwork(30);
    peek := g.GetAddress(30);
  }

  /** Two NextAddress calls for one mask give two different addresses, the
      second one host step after the first. */
  method ConsecutiveAddresses(g: Ipv4AddressGenerator, mask: PrefixLength)
    returns (a: Outcome<Ipv4Address>, b: Outcome<Ipv4Address>)
    requires g.Valid()
    modifies g
    ensures g.Valid()
    ensures a.Ok? && b.Ok? ==> a.value != b.value && b.value == a.value + 1
    ensures a.Ok? && b.Ok? ==> g.IsAddressAllocated(a.value) && g.IsAddressAllocated(b.value)
  {
    a := g.NextAddress(mask);
    b := g.NextAddress(mask);
  }

  /** NextNetwork after Init moves one network step on and starts the host
      cursor again at the base address given to Init. */
  method InitThenNextNetwork(g: Ipv4AddressGenerator, net: Ipv4Address, mask: PrefixLength, addr: Ipv4Address)
    returns (init: Outcome<()>, next: Outcome<Ipv4Address>, peek: Outcome<Ipv4Address>)
    requires g.Valid()
    modifies g
    ensures g.Valid()
    ensures init.Ok? && next.Ok? ==> next.value == net + HostSpan(mask) && next.value != net
    ensures init.Ok? && next.Ok? ==> peek.Ok? && peek.value == next.value + addr
  {
    init := g.Init(net, mask, addr);
    next := g.NextNetwork(mask);
    peek := g.GetAddress(mask);
  }

  /** Registering the same address twice: the second registration fails. */
  method AddAllocatedTwice(g: Ipv4AddressGenerator, a: Ipv4Address) returns (first: bool, second: bool)
    requires g.Valid()
    modifies g
    ensures g.Valid()
    ensures first <==> a !in old(g.ledger)
    ensures !second
    ensures g.ledger == old(g.ledger) + {a}
  {
    first := g.AddAllocated(a);
    second := g.AddAllocated(a);
  }

  /** After Reset, Init and NextAddress give what they give on a pool that
      was never used. */
  method ResetReproducesFreshPool(g: Ipv4AddressGenerator, net: Ipv4Address, mask: PrefixLength, addr: Ipv4Address)
    returns (again: Outcome<Ipv4Address>, pristine: Outcome<Ipv4Address>)
    requires g.Valid()
    modifies g
    ensures again == pristine
  {
    g.Reset();
    var _ := g.Init(net, mask, addr);
    again := g.NextAddress(mask);
    var h := new Ipv4AddressGenerator();
    var _ := h.Init(net, mask, addr);
    pristine := h.NextAddress(mask);
  }

  /** Init(10.1.1.0, /24, 0.0.0.3): NextAddress gives 10.1.1.3, then 10.1.1.4. */
  method ExampleSequentialAddresses() returns (a: Outcome<Ipv4Address>, b: Outcome<Ipv4Address>)
    ensures a == Ok(167837955) && b == Ok(167837956)
  {
    var g := new Ipv4AddressGenerator();
    assert HostSpan(24) == 256;
    var init := g.Init(167837952, 24, 3);
    assert init.Ok? && g.networks[24] == 167837952 && g.pending[24] == 3 && g.ledger == {};
    a := g.NextAddress(24);
    assert g.pending[24] == 4 && g.ledger == {167837955};
    b := g.NextAddress(24);
  }

  /** On a fresh pool, NextNetwork(/30) gives 0.0.0.4, then 0.0.0.8. */
  method ExampleNetworkStep() returns (n1: Outcome<Ipv4Address>, n2: Outcome<Ipv4Address>)
    ensures n1 == Ok(4) && n2 == Ok(8)
  {
    var g := new Ipv4AddressGenerator();
    assert HostSpan(30) == 4;
    n1 := g.NextNetwork(30);
    n2 := g.NextNetwork(30);
  }

  /** A /30 holds the host parts 0 to 3: starting from 0.0.0.1, the fourth
      NextAddress runs out, fatally outside test mode. */
  method ExampleHostExhaustion() returns (a1: Outcome<Ipv4Address>, a2: Outcome<Ipv4Address>,
                                         a3: Outcome<Ipv4Address>, a4: Outcome<Ipv4Address>)
    ensures a1 == Ok(167837953) && a2 == Ok(167837954) && a3 == Ok(167837955)
    ensures a4 == Err(AddressesExhausted, true)
  {
    var g := new Ipv4AddressGenerator();
    assert HostSpan(30) == 4;
    var init := g.Init(167837952, 30);
    assert init.Ok? && g.networks[30] == 167837952 && g.pending[30] == 1 && g.ledger == {};
    a1 := g.NextAddress(30);
    assert g.pending[30] == 2 && g.ledger == {167837953};
    a2 := g.NextAddress(30);
    assert g.pending[30] == 3 && g.ledger == {167837953, 167837954};
    a3 := g.NextAddress(30);
    assert g.pending[30] == 4 && !g.testMode;
    a4 := g.NextAddress(30);
  }

  /** In test mode a fault is reported but not fatal: 10.1.1.1 is not a /24
      network address. */
  method ExampleTestMode() returns (r: Outcome<()>)
    ensures r == Err(NetworkHasHostBits, false)
  {
    var g := new Ipv4AddressGenerator();
    g.TestMode();
    assert HostSpan(24) == 256;
    r := g.Init(167837953, 24);
  }

  /** An address registered from outside is not handed out again. */
  method ExampleCollision() returns (added: bool, again: Outcome<Ipv4Address>)
    ensures added && again == Err(AddressCollision, true)
  {
    var g := new Ipv4AddressGenerator();
    assert HostSpan(24) == 256;
    var init := g.Init(167837952, 24, 3);
    assert init.Ok? && g.networks[24] == 167837952 && g.pending[24] == 3 && g.ledger == {};
    added := g.AddAllocated(167837955);
    again := g.NextAddress(24);
  }

  /** When the ledger holds just 10.1.1.3, the /24 network 10.1.1.0 has an
      allocated address. */
  method ExampleNetworkAllocated24(g: Ipv4AddressGenerator) returns (in24: bool)
    requires g.ledger == {167837955}
    ensures in24
  {
    assert HostSpan(24) == 256;
    NetworkOfUnique(167837952, 167837955, 24);
    in24 := g.IsNetworkAllocated(167837952, 24);
  }

  /** Mask lengths are told apart: when the ledger holds just 10.1.1.3, the
      /25 network 10.1.1.0 has an allocated address and the /25 network
      10.1.1.128 has none. */
  method ExampleNetworkAllocated25(g: Ipv4AddressGenerator) returns (low25: bool, high25: bool)
    requires g.ledger == {167837955}
    ensures low25 && !high25
  {
    assert HostSpan(25) == 128;
    NetworkOfUnique(167837952, 167837955, 25);
    low25 := g.IsNetworkAllocated(167837952, 25);
    NetworkOfUnique(167838080, 167838080, 25);
    high25 := g.IsNetworkAllocated(167838080, 25);
  }
}
