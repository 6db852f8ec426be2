/** The shared IPv4 address pool used by topology code.

    For every prefix length the generator keeps a current network and the
    host part of the next address to hand out in it, and a base host part,
    set by Init, where that host cursor starts again whenever a new network
    of that length is taken. A ledger records every address handed out (or
    registered from outside), so that duplicates are detected.

    The source keeps this state once per process and makes every instance
    share it; here the state is one explicit object. A fault that the source
    reports as fatal is returned as `Err(fault, true)`; after TestMode the
    same fault is returned as `Err(fault, false)`. A call that faults
    changes nothing. */
module AddressGenerator {
  import opened Ipv4

  datatype Fault =
    | NetworkHasHostBits      // Init: the network has bits set outside the mask
    | AddressHasNetworkBits   // Init, InitAddress: the host part has bits set inside the mask
    | NetworksExhausted       // NextNetwork: the next network would not fit in 32 bits
    | AddressesExhausted      // GetAddress, NextAddress: the host part has run past the mask
    | AddressCollision        // NextAddress: the pending address is already in the ledger

  datatype Outcome<T> = Ok(value: T) | Err(fault: Fault, fatal: bool)

  /** Number of prefix lengths, /0 to /32. */
  const PrefixCount := 33

  const NoNetworks: seq<Ipv4Address> := seq(PrefixCount, _ => 0)
  const NoHosts: seq<nat> := seq(PrefixCount, _ => 0)

  class Ipv4AddressGenerator {
    /** Current network address, by prefix length. */
    var networks: seq<Ipv4Address>
    /** Host part of the address NextAddress hands out next, by prefix length. */
    var pending: seq<nat>
    /** Host part given to the last Init, by prefix length; NextNetwork
        restarts that length's host cursor here. */
    var bases: seq<nat>
    /** The ledger: every address allocated so far. */
    var ledger: set<Ipv4Address>
    /** Set by TestMode: faults are no longer fatal. */
    var testMode: bool

    ghost predicate Valid()
      reads this
    {
      |networks| == PrefixCount && |pending| == PrefixCount && |bases| == PrefixCount &&
      (forall len: PrefixLength :: IsNetwork(networks[len], len)) &&
      (forall len: PrefixLength :: FitsHost(bases[len], len))
    }

    /** Every cursor is zero and the ledger is empty. */
    predicate Cleared()
      reads this
    {
      networks == NoNetworks && pending == NoHosts && bases == NoHosts && ledger == {}
    }

    /** The pool as it is when the process starts. */
    constructor ()
      ensures Valid() && Cleared() && !testMode
    {
      networks, pending, bases := NoNetworks, NoHosts, NoHosts;
      ledger, testMode := {}, false;
      forall len: PrefixLength
        ensures NoNetworks[len] == 0 && NoHosts[len] == 0
        ensures IsNetwork(NoNetworks[len], len) && FitsHost(NoHosts[len], len)
      {
        assert FitsHost(0, len);
      }
    }

    /** Peek at the current network for a mask. */
    function GetNetwork(mask: PrefixLength): (net: Ipv4Address)
      reads this
      requires Valid()
      ensures IsNetwork(net, mask)
    {
      networks[mask]
    }

    /** Peek at the address the next NextAddress for this mask hands out:
        the current network combined with the pending host part. */
    function GetAddress(mask: PrefixLength): (r: Outcome<Ipv4Address>)
      reads this
      requires Valid()
      ensures r.Ok? <==> FitsHost(pending[mask], mask)
      ensures r.Ok? ==> NetworkOf(r.value, mask) == GetNetwork(mask)
      ensures r.Ok? ==> r.value - GetNetwork(mask) == pending[mask]
      ensures r.Err? ==> r == Err(AddressesExhausted, !testMode)
    {
      var net, host := networks[mask], pending[mask];
      if FitsHost(host, mask) then
        WithinNetwork(net, host, mask);
        Ok(net + host)
      else
        Err(AddressesExhausted, !testMode)
    }

    /** Whether an address is in the ledger: exactly when its /32 network,
        the address alone, has an allocated address. */
    function IsAddressAllocated(a: Ipv4Address): (b: bool)
      reads this
      ensures b <==> IsNetworkAllocated(a, 32)
    {
      a in ledger
    }

    /** Whether some address of the network that `addr` lies in, under this
        mask, is in the ledger. */
    function IsNetworkAllocated(addr: Ipv4Address, mask: PrefixLength): (b: bool)
      reads this
      ensures addr in ledger ==> b
      ensures b ==> ledger != {}
      ensures mask == 32 ==> (b <==> addr in ledger)
      ensures mask == 0 ==> (b <==> ledger != {})
    {
      FullPrefixNetworks();
      EmptyPrefixNetworks();
      exists a :: a in ledger && NetworkOf(a, mask) == NetworkOf(addr, mask)
    }

    /** Prefixes nest: a network with an allocated address lies inside a
        network of every shorter prefix, which therefore has one too. */
    lemma CoarserNetworkAllocated(addr: Ipv4Address, short: PrefixLength, long: PrefixLength)
      requires short <= long
      ensures IsNetworkAllocated(addr, long) ==> IsNetworkAllocated(addr, short)
    {
      if IsNetworkAllocated(addr, long) {
        var a :| a in ledger && NetworkOf(a, long) == NetworkOf(addr, long);
        NetworkOfNested(a, short, long);
        NetworkOfNested(addr, short, long);
      }
    }

    /** Set the network and the host part for a mask, and that mask's base
        host part, where later NextNetwork calls for it restart the cursor. */
    method Init(net: Ipv4Address, mask: PrefixLength, addr: Ipv4Address := 1) returns (r: Outcome<()>)
      requires Valid()
      modifies this
      ensures Valid()
      ensures !IsNetwork(net, mask) ==> r == Err(NetworkHasHostBits, !testMode)
      ensures IsNetwork(net, mask) && !FitsHost(addr, mask) ==> r == Err(AddressHasNetworkBits, !testMode)
      ensures r.Err? ==> unchanged(this)
      ensures r.Ok? <==> IsNetwork(net, mask) && FitsHost(addr, mask)
      ensures r.Ok? ==> networks == old(networks)[mask := net] && pending == old(pending)[mask := addr]
      ensures r.Ok? ==> bases == old(bases)[mask := addr] && ledger == old(ledger) && testMode == old(testMode)
      ensures r.Ok? ==> GetNetwork(mask) == net
      ensures r.Ok? ==> GetAddress(mask).Ok? && GetAddress(mask).value == net + addr
    {
      if !IsNetwork(net, mask) {
        r := Err(NetworkHasHostBits, !testMode);
      } else if !FitsHost(addr, mask) {
        r := Err(AddressHasNetworkBits, !testMode);
      } else {
        networks := networks[mask := net];
        pending := pending[mask := addr];
        bases := bases[mask := addr];
        r := Ok(());
      }
    }

    /** Pre-increment: take the next network of this length, restart its host
        cursor at the base host part of this length, and return the new network. */
    method NextNetwork(mask: PrefixLength) returns (r: Outcome<Ipv4Address>)
      requires Valid()
      modifies this
      ensures Valid()
      ensures r.Ok? <==> old(GetNetwork(mask)) + HostSpan(mask) < AddressSpace
      ensures r.Err? ==> r == Err(NetworksExhausted, !testMode) && unchanged(this)
      ensures r.Ok? ==> r.value == old(GetNetwork(mask)) + HostSpan(mask)
      ensures r.Ok? ==> r.value == GetNetwork(mask)
      ensures r.Ok? ==> networks == old(networks)[mask := r.value] && pending == old(pending)[mask := bases[mask]]
      ensures r.Ok? ==> bases == old(bases) && ledger == old(ledger) && testMode == old(testMode)
      ensures r.Ok? ==> GetAddress(mask).Ok? && GetAddress(mask).value == r.value + bases[mask]
    {
      var net := networks[mask];
      if net + HostSpan(mask) < AddressSpace {
        NextNetworkIsNetwork(net, mask);
        var next := net + HostSpan(mask);
        networks := networks[mask := next];
        pending := pending[mask := bases[mask]];
        r := Ok(next);
      } else {
        r := Err(NetworksExhausted, !testMode);
      }
    }

    /** Set the host part of the next address for a mask; the network is kept. */
    method InitAddress(addr: Ipv4Address, mask: PrefixLength) returns (r: Outcome<()>)
      requires Valid()
      modifies this
      ensures Valid()
      ensures r.Ok? <==> FitsHost(addr, mask)
      ensures r.Err? ==> r == Err(AddressHasNetworkBits, !testMode) && unchanged(this)
      ensures r.Ok? ==> pending == old(pending)[mask := addr] && networks == old(networks)
      ensures r.Ok? ==> bases == old(bases) && ledger == old(ledger) && testMode == old(testMode)
      ensures r.Ok? ==> GetAddress(mask).Ok? && GetAddress(mask).value == GetNetwork(mask) + addr
    {
      if FitsHost(addr, mask) {
        pending := pending[mask := addr];
        r := Ok(());
      } else {
        r := Err(AddressHasNetworkBits, !testMode);
      }
    }

    /** Post-increment: hand out the pending address, record it in the
        ledger and move the host cursor one on. */
    method NextAddress(mask: PrefixLength) returns (r: Outcome<Ipv4Address>)
      requires Valid()
      modifies this
      ensures Valid()
      ensures old(GetAddress(mask)).Err? ==> r == old(GetAddress(mask)) && unchanged(this)
      ensures old(GetAddress(mask)).Ok? && old(GetAddress(mask)).value in old(ledger) ==>
                r == Err(AddressCollision, !testMode) && unchanged(this)
      ensures r.Ok? <==> old(GetAddress(mask)).Ok? && old(GetAddress(mask)).value !in old(ledger)
      ensures r.Ok? ==> r == old(GetAddress(mask))
      ensures r.Ok? ==> r.value !in old(ledger) && ledger == old(ledger) + {r.value}
      ensures r.Ok? ==> IsAddressAllocated(r.value) && NetworkOf(r.value, mask) == GetNetwork(mask)
      ensures r.Ok? ==> pending == old(pending)[mask := old(pending)[mask] + 1] && networks == old(networks)
      ensures r.Ok? ==> bases == old(bases) && testMode == old(testMode)
      ensures r.Ok? ==> GetAddress(mask) != r
    {
      var peek := GetAddress(mask);
      if peek.Err? {
        r := peek;
      } else if peek.value in ledger {
        r := Err(AddressCollision, !testMode);
      } else {
        var _ := AddAllocated(peek.value);
        pending := pending[mask := pending[mask] + 1];
        r := peek;
      }
    }

    /** Return every network and host cursor to zero and empty the ledger. */
    method Reset()
      requires Valid()
      modifies this
      ensures Valid() && Cleared() && testMode == old(testMode)
      ensures forall a: Ipv4Address :: !IsAddressAllocated(a)
      ensures forall a: Ipv4Address, len: PrefixLength :: !IsNetworkAllocated(a, len)
      ensures forall len: PrefixLength :: GetNetwork(len) == 0 && GetAddress(len) == Ok(0)
    {
      networks, pending, bases, ledger := NoNetworks, NoHosts, NoHosts, {};
      forall len: PrefixLength
        ensures networks[len] == 0 && pending[len] == 0 && bases[len] == 0
        ensures IsNetwork(networks[len], len) && FitsHost(bases[len], len)
      {
        assert FitsHost(0, len);
      }
      assert Valid();
      forall len: PrefixLength
        ensures GetAddress(len) == Ok(0)
      {
        assert FitsHost(pending[len], len);
      }
    }

    /** Record an address in the ledger; true when it was not there before. */
    method AddAllocated(a: Ipv4Address) returns (added: bool)
      requires Valid()
      modifies this
      ensures Valid()
      ensures added <==> !old(IsAddressAllocated(a))
      ensures ledger == old(ledger) + {a}
      ensures networks == old(networks) && pending == old(pending)
      ensures bases == old(bases) && testMode == old(testMode)
    {
      added := a !in ledger;
      ledger := ledger + {a};
    }

    /** Make every later fault non-fatal. */
    method TestMode()
      requires Valid()
      modifies this
      ensures Valid() && testMode
      ensures networks == old(networks) && pending == old(pending) && bases == old(bases)
      ensures ledger == old(ledger)
    {
      testMode := true;
    }
  }
}
