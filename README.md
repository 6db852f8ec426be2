# ns-3 Ipv4AddressGenerator, modelled in Dafny

ns-3's `Ipv4AddressGenerator` is the shared IPv4 address pool that topology
code draws from. For every mask it keeps a current network and the next host
address of that network. `NextNetwork` moves to the next network; it is a
pre-increment. `NextAddress` hands out the pending address; it is a
post-increment. `GetNetwork` and `GetAddress` only peek. `Init` and
`InitAddress` seed the cursors, and `Reset` zeroes them. A ledger of allocated
addresses detects duplicates. `AddAllocated` lets other allocators register
addresses in it. `IsAddressAllocated` and `IsNetworkAllocated` query it.
`TestMode` turns fatal errors off.

The interface (`ns-3-dev/src/internet/model/ipv4-address-generator.h`) is
the only source file in this model.

Files:

- `ipv4.dfy` (module `Ipv4`): 32-bit addresses, masks as prefix lengths
  0..32, and the mask arithmetic. A mask of length `len` splits the
  address space into networks of `HostSpan(len) == 1 << (32 - len)`
  addresses each. `a & mask` is written `NetworkOf(a, len) == a - a % HostSpan(len)`.
  A host part `h` that fits the mask satisfies `h < HostSpan(len)`. For such
  an `h` and a network address `net`, `net | h` equals `net + h`. These
  arithmetic forms stand in for the bit operations: addresses are integers,
  not bit-vectors, and no lemma relates the two representations.
- `generator.dfy` (module `AddressGenerator`): the class
  `Ipv4AddressGenerator`. Its fields are the per-mask network and
  pending host part and the base host part from the last `Init` of that
  mask (`seq`s indexed by prefix length), the ledger (`set`) and the test-mode flag. The four
  queries are functions over these fields. The seven state-changing
  operations are methods that state the whole new state. Failures are returned as
  `Err(fault, fatal)`, where `fatal` is true unless `TestMode` was called.
  A call that fails changes nothing.
- `scenarios.dfy` (module `GeneratorScenarios`): callers chaining several
  operations. Each one's result follows from the operations' contracts
  alone. It also holds concrete runs: 10.1.1.0/24 from host 3, stepping
  /30 networks, running out of /30 hosts, test mode, a collision, and /24
  versus /25 queries.

Decisions where the header leaves room:

- `addr` in `Init` and `InitAddress` is read as a host part. It must have
  no bits inside the mask; the default `0.0.0.1` can only be a host part.
  The header says the first `NextAddress` or `GetAddress` after `Init`
  "returns the value passed in"; in the model's reading that value is the
  network combined with the host part, `net + addr`.
- The base host part is kept per mask. `NextNetwork(mask)` restarts the
  host cursor of that mask at the host part given to the last `Init` of the
  same mask (0 when there was none), so the new network can hand out
  addresses again. A host part given for another mask may not fit this one.
- `NextNetwork` fails with `NetworksExhausted` when one more network step
  would not fit in 32 bits. The header says nothing about this case; a
  32-bit counter would wrap around to network 0.0.0.0, which the model
  does not do.
- `IsNetworkAllocated(addr, mask)` is true when some address in the ledger
  lies in the network of `addr` under `mask`. This follows the header's
  "Check if a network has already allocated addresses". The header does
  not say that `Init` or `NextNetwork` register a network, so network
  queries are derived from the address ledger.
- `Init` registers nothing: the header promises that the first
  `NextAddress` after `Init` returns the configured address, and a
  registered address would make it collide.
- `NextAddress` refuses, with `AddressCollision`, an address that is
  already in the ledger. It does not skip to the next free address: the
  header promises no skipping.
- A host part is valid when it fits the host bits. The all-zero and all-one
  host parts are not reserved, because the header reserves neither. So a /30
  starting at host 1 gives hosts 1, 2 and 3.
- `Reset` zeroes the networks, the pending host parts and the base host parts,
  and empties the ledger. After `Reset`, `GetAddress` gives `Ok(0)` for every
  mask. `Reset` keeps the test-mode flag.
- `IsAddressAllocated` is ledger membership. Its behaviour is stated by the
  contracts of `NextAddress`, `AddAllocated` and `Reset`.

## Model

| member | source | states |
|---|---|---|
| `Ipv4.SpanCount` | ns-3-dev/src/internet/model/ipv4-address-generator.h:45-57 | a mask of length `len` splits the 32-bit space into `2^len` networks, each one network step (`1 << (32 - len)`) long |
| `Ipv4.NetworkOf` | ns-3-dev/src/internet/model/ipv4-address-generator.h:125-132 | masking an address gives a network address of that mask at or below it, less than one network step below |
| `Ipv4.NetworkOfUnique` | ns-3-dev/src/internet/model/ipv4-address-generator.h:125-132 | the network of an address is the only network address within one network step at or below it |
| `Ipv4.WithinNetwork` | ns-3-dev/src/internet/model/ipv4-address-generator.h:31-43 | a network address combined with a host part that fits the mask does not carry out of 32 bits and lies in that network |
| `Ipv4.NextNetworkIsNetwork` | ns-3-dev/src/internet/model/ipv4-address-generator.h:45-57 | one network step past a network address, when it fits in 32 bits, is again a network address of that mask |
| `Ipv4.CoarserIsNetwork` | ns-3-dev/src/internet/model/ipv4-address-generator.h:125-132 | a network address of a shorter prefix is a network address of every longer prefix |
| `Ipv4.NetworkOfIsLargest` | ns-3-dev/src/internet/model/ipv4-address-generator.h:125-132 | every network address at or below an address is at or below that address's network |
| `Ipv4.NetworkOfNested` | ns-3-dev/src/internet/model/ipv4-address-generator.h:125-132 | masking with a longer prefix and then a shorter one equals masking with the shorter one |
| `Ipv4.FullPrefixNetworks` | ns-3-dev/src/internet/model/ipv4-address-generator.h:125-132 | under a /32 mask every address is its own network |
| `Ipv4.EmptyPrefixNetworks` | ns-3-dev/src/internet/model/ipv4-address-generator.h:125-132 | under a /0 mask every address is in the network 0.0.0.0 |
| `AddressGenerator.Ipv4AddressGenerator.constructor` | ns-3-dev/src/internet/model/ipv4-address-generator.h:19-25 | the shared pool starts with every cursor at zero, an empty ledger and fatal errors on |
| `AddressGenerator.Ipv4AddressGenerator.GetNetwork` | ns-3-dev/src/internet/model/ipv4-address-generator.h:59-68 | the peeked current network is a network address of the given mask (no host bits set) |
| `AddressGenerator.Ipv4AddressGenerator.GetAddress` | ns-3-dev/src/internet/model/ipv4-address-generator.h:89-98 | the peek succeeds exactly when the pending host part fits the mask; it then lies in the current network, offset from it by the pending host part; otherwise the fault is host exhaustion |
| `AddressGenerator.Ipv4AddressGenerator.IsAddressAllocated` | ns-3-dev/src/internet/model/ipv4-address-generator.h:117-123 | an address is allocated exactly when its /32 network is, that is, when it is in the ledger; its other promises are stated by the contracts of `NextAddress` (the handed-out address becomes allocated), `AddAllocated` (the argument becomes allocated, and the result says whether it was before) and `Reset` (nothing is allocated afterwards) |
| `AddressGenerator.Ipv4AddressGenerator.IsNetworkAllocated` | ns-3-dev/src/internet/model/ipv4-address-generator.h:125-132 | an allocated address makes its network allocated under every mask; nothing is allocated in an empty ledger; under /32 it is address membership, and under /0 it says the ledger is not empty |
| `AddressGenerator.Ipv4AddressGenerator.CoarserNetworkAllocated` | ns-3-dev/src/internet/model/ipv4-address-generator.h:125-132 | a network with an allocated address makes every enclosing network of a shorter prefix allocated too |
| `AddressGenerator.Ipv4AddressGenerator.Init` | ns-3-dev/src/internet/model/ipv4-address-generator.h:31-43 | fails without effect when the network has host bits or the base address has network bits; otherwise sets the network, the pending host part and the base host part of that mask; GetNetwork then returns the network and GetAddress returns the base address within it; the ledger is untouched |
| `AddressGenerator.Ipv4AddressGenerator.NextNetwork` | ns-3-dev/src/internet/model/ipv4-address-generator.h:45-57 | pre-increment: succeeds exactly when one more network step fits in 32 bits; the result is the old GetNetwork plus one step, so it differs from it, and it equals GetNetwork afterwards; the host cursor for the mask restarts at that mask's base host part from Init, so GetAddress afterwards succeeds with the new network plus that base; other masks and the ledger are unchanged |
| `AddressGenerator.Ipv4AddressGenerator.InitAddress` | ns-3-dev/src/internet/model/ipv4-address-generator.h:70-76 | fails without effect when the address has network bits; otherwise only the mask's pending host part changes, and GetAddress then returns it within the current network |
| `AddressGenerator.Ipv4AddressGenerator.NextAddress` | ns-3-dev/src/internet/model/ipv4-address-generator.h:78-87 | post-increment: returns exactly what GetAddress returned before and records it in the ledger; it was not in the ledger before; the host cursor moves one on, so the next peek differs; an exhausted host range or an address already in the ledger fails without effect |
| `AddressGenerator.Ipv4AddressGenerator.Reset` | ns-3-dev/src/internet/model/ipv4-address-generator.h:100-103 | every network and host cursor returns to zero and the ledger is emptied, so no address and no network is allocated; GetAddress is 0.0.0.0 for every mask |
| `AddressGenerator.Ipv4AddressGenerator.AddAllocated` | ns-3-dev/src/internet/model/ipv4-address-generator.h:105-115 | true exactly when the address was not yet in the ledger; afterwards it is, with no other ledger entry and no cursor changed |
| `AddressGenerator.Ipv4AddressGenerator.TestMode` | ns-3-dev/src/internet/model/ipv4-address-generator.h:134-137 | turns fatal faults off and changes nothing else |
| `GeneratorScenarios.InitThenFirstAddress` | ns-3-dev/src/internet/model/ipv4-address-generator.h:31-43 | after a successful Init, GetAddress gives the base address inside the network, and the first NextAddress gives the same address unless it was already registered |
| `GeneratorScenarios.ConsecutiveAddresses` | ns-3-dev/src/internet/model/ipv4-address-generator.h:78-87 | two successful NextAddress calls for one mask give different addresses, one host step apart, both in the ledger |
| `GeneratorScenarios.InitThenNextNetwork` | ns-3-dev/src/internet/model/ipv4-address-generator.h:45-57 | NextNetwork after Init gives the network one step on, and the next address is the base from Init inside that network |
| `GeneratorScenarios.AddAllocatedTwice` | ns-3-dev/src/internet/model/ipv4-address-generator.h:105-115 | a second AddAllocated of the same address fails; the first succeeds exactly when the address was new |
| `GeneratorScenarios.ResetReproducesFreshPool` | ns-3-dev/src/internet/model/ipv4-address-generator.h:100-103 | Init and NextAddress after Reset give the same address as on a pool that was never used |
| `GeneratorScenarios.ExampleSequentialAddresses` | ns-3-dev/src/internet/model/ipv4-address-generator.h:78-87 | Init(10.1.1.0, /24, 0.0.0.3) then NextAddress twice gives 10.1.1.3 and 10.1.1.4 |
| `GeneratorScenarios.ExampleBasePerMask` | ns-3-dev/src/internet/model/ipv4-address-generator.h:45-57 | after Init(0.0.0.0, /24, 0.0.0.200), NextNetwork(/30) gives 0.0.0.4 and the next /30 address is 0.0.0.4: a base set for one mask does not reach another |
| `GeneratorScenarios.ExampleNetworkStep` | ns-3-dev/src/internet/model/ipv4-address-generator.h:45-57 | on a fresh pool NextNetwork(/30) gives 0.0.0.4, then 0.0.0.8 |
| `GeneratorScenarios.ExampleHostExhaustion` | ns-3-dev/src/internet/model/ipv4-address-generator.h:78-87 | a /30 from host 1 gives hosts 1, 2, 3, and then a fatal host-exhaustion fault |
| `GeneratorScenarios.ExampleTestMode` | ns-3-dev/src/internet/model/ipv4-address-generator.h:134-137 | after TestMode an inconsistent Init is reported as a non-fatal fault |
| `GeneratorScenarios.ExampleCollision` | ns-3-dev/src/internet/model/ipv4-address-generator.h:105-115 | an address registered by AddAllocated is not handed out by NextAddress |
| `GeneratorScenarios.ExampleNetworkAllocated24` | ns-3-dev/src/internet/model/ipv4-address-generator.h:125-132 | with 10.1.1.3 in the ledger, the /24 network 10.1.1.0 is allocated |
| `GeneratorScenarios.ExampleNetworkAllocated25` | ns-3-dev/src/internet/model/ipv4-address-generator.h:125-132 | with 10.1.1.3 in the ledger, the /25 network 10.1.1.0 is allocated and the /25 network 10.1.1.128 is not |

## Left out

- `Ipv4Address` and `Ipv4Mask` from `ns3/ipv4-address.h` are not part of this model. An
  address is an integer in 0..2^32-1, so dotted-quad strings such as the
  default `"0.0.0.1"` are not parsed. A mask is a prefix length, so a mask
  with non-contiguous bits cannot be written.
- The singleton mechanism: the shared pool is one explicit object, and
  callers pass it around.
- Process termination: a fault is returned as `Err(fault, fatal)` and leaves
  the state unchanged. The model does not say what happens after a fatal
  fault.
- Assertions that the header does not describe, such as a mask that was
  never initialised. Every mask starts at network 0 with host part 0, so no
  mask is ever uninitialised in the model.
- The ledger's concrete representation: the implementation file is not
  part of this model. The ledger is a set of addresses, and network queries
  are derived from it.
- Skipping already-allocated networks or addresses, and limits on how far
  such a search may run: the header promises no skipping.
- Reserved host parts (all zeros, all ones): the header reserves neither.
- `AddressGenerator.Ipv4AddressGenerator.AddAllocated`: a refused
  registration returns false in both modes. The model does not mark it as
  fatal outside test mode, because the header gives AddAllocated only a
  boolean result.
- Logging, and the topology and helper code that calls the generator.
