/** The default DHCP range of the GREEN network (src/installer/net_dhcp.c:109-146) and the network
    address it relies on (src/installer/helper_newt.c:276-281).  Addresses are 32-bit values in host
    order, and sums and differences wrap around. */
module DhcpRange {

  import opened Bitwise

  const WRAP: nat := 0x1_0000_0000

  type ipv4 = n: nat | n < 0x1_0000_0000

  function Wrap(n: int): ipv4 {
    n % WRAP
  }

  function Not(netmask: ipv4): ipv4 {
    WRAP - 1 - netmask
  }

  /** The address that changeaddress stores. */
  function NetAddress(address: ipv4, netmask: ipv4): nat {
    And(address, netmask)
  }

  function Broadcast(address: ipv4, netmask: ipv4): nat {
    Or(address, Not(netmask))
  }

  /** The two defaults of changedhcpserver; each works out the broadcast address again. */
  method DefaultRange(address: ipv4, netmask: ipv4, netaddress: ipv4) returns (start: ipv4, end: ipv4)
    ensures (start, end) == if Wrap(address + 2) < Broadcast(address, netmask)
                            then (Wrap(address + 1), Wrap(Broadcast(address, netmask) - 1))
                            else (Wrap(netaddress + 1), Wrap(address - 1))
  {
    var addr: int := address;
    var broadcast := Or(addr, Not(netmask));
    if Wrap(addr + 2) < broadcast {
      addr := Wrap(addr + 1);
    } else {
      addr := Wrap(netaddress + 1);
    }
    start := addr;

    addr := address;
    broadcast := Or(addr, Not(netmask));
    if Wrap(addr + 2) < broadcast {
      addr := Wrap(broadcast - 1);
    } else {
      addr := Wrap(addr - 1);
    }
    end := addr;
  }

  // ---- what the range is good for ----

  /** The mask with `hostBits` trailing zeros. */
  predicate MaskOf(netmask: ipv4, hostBits: nat) {
    hostBits <= 32 && netmask == WRAP - Pow2(hostBits)
  }

  /** Strictly between the network and the broadcast address. */
  predicate ProperHost(address: ipv4, netmask: ipv4) {
    NetAddress(address, netmask) < address < Broadcast(address, netmask)
  }

  /** Another proper host of the same network. */
  predicate Usable(address: ipv4, netmask: ipv4, host: ipv4) {
    NetAddress(host, netmask) == NetAddress(address, netmask) && ProperHost(host, netmask) && host != address
  }

  /** A range that is not empty and holds only hosts that GREEN clients can use. */
  ghost predicate GoodRange(address: ipv4, netmask: ipv4, start: ipv4, end: ipv4) {
    start <= end && forall host: ipv4 :: start <= host <= end ==> Usable(address, netmask, host)
  }

  lemma Pow2Of32()
    ensures Pow2(32) == WRAP
  {
    assert Pow2(4) == 0x10;
    assert Pow2(8) == 0x100;
    assert Pow2(12) == 0x1000;
    assert Pow2(16) == 0x1_0000;
    assert Pow2(20) == 0x10_0000;
    assert Pow2(24) == 0x100_0000;
    assert Pow2(28) == 0x1000_0000;
  }

  /** With a mask of leading ones, a network is a block of Pow2(hostBits) addresses. */
  lemma NetworkIsBlock(address: ipv4, netmask: ipv4, hostBits: nat)
    requires MaskOf(netmask, hostBits)
    ensures NetAddress(address, netmask) == address - Low(address, hostBits)
    ensures Broadcast(address, netmask) == address - Low(address, hostBits) + Pow2(hostBits) - 1
    ensures Broadcast(address, netmask) < WRAP
  {
    Pow2Of32();
    AndLeadingOnes(address, 32, hostBits);
    OrTrailingOnes(address, hostBits);
    OrBelow(address, Not(netmask), 32);
  }

  lemma SameBlock(address: ipv4, netmask: ipv4, hostBits: nat, host: ipv4)
    requires MaskOf(netmask, hostBits)
    requires NetAddress(address, netmask) <= host <= Broadcast(address, netmask)
    ensures NetAddress(host, netmask) == NetAddress(address, netmask)
    ensures Broadcast(host, netmask) == Broadcast(address, netmask)
  {
    NetworkIsBlock(address, netmask, hostBits);
    NetworkIsBlock(host, netmask, hostBits);
    LowOfRest(address, hostBits);
    LowOfOffset(NetAddress(address, netmask), host - NetAddress(address, netmask), hostBits);
  }

  lemma UsableIsInside(address: ipv4, netmask: ipv4, hostBits: nat, host: ipv4)
    requires MaskOf(netmask, hostBits)
    ensures Usable(address, netmask, host)
       <==> NetAddress(address, netmask) < host < Broadcast(address, netmask) && host != address
  {
    if NetAddress(address, netmask) < host < Broadcast(address, netmask) {
      SameBlock(address, netmask, hostBits, host);
    } else if Usable(address, netmask, host) {
      NetworkIsBlock(host, netmask, hostBits);
      NetworkIsBlock(address, netmask, hostBits);
    }
  }

  lemma GoodRangeIsInside(address: ipv4, netmask: ipv4, hostBits: nat, start: ipv4, end: ipv4)
    requires MaskOf(netmask, hostBits)
    ensures GoodRange(address, netmask, start, end)
       <==> NetAddress(address, netmask) < start <= end < Broadcast(address, netmask) && !(start <= address <= end)
  {
    forall host: ipv4
      ensures Usable(address, netmask, host)
         <==> NetAddress(address, netmask) < host < Broadcast(address, netmask) && host != address
    {
      UsableIsInside(address, netmask, hostBits, host);
    }
    if GoodRange(address, netmask, start, end) {
      assert Usable(address, netmask, start) && Usable(address, netmask, end);
      assert start <= address <= end ==> Usable(address, netmask, address);
    }
  }

  lemma SmallBlocks(hostBits: nat)
    ensures Pow2(hostBits) == 4 <==> hostBits == 2
    ensures Pow2(hostBits) != 3
  {
    if hostBits >= 3 {
      assert Pow2(hostBits) == 2 * Pow2(hostBits - 1);
      assert Pow2(hostBits - 1) == 2 * Pow2(hostBits - 2);
      assert Pow2(hostBits - 2) == 2 * Pow2(hostBits - 3);
    }
  }

  /** The addresses above the host, if there is more than one before the broadcast address of the block,
      and else those below it. */
  predicate IsDefaultIn(net: nat, size: nat, address: ipv4, start: ipv4, end: ipv4) {
    if address + 2 < net + size - 1 then start == address + 1 && end == net + size - 2
    else start == net + 1 && end == address - 1
  }

  /** The arithmetic of the two branches, on a block of the given size. */
  lemma RangeInBlock(net: nat, size: nat, address: ipv4, start: ipv4, end: ipv4)
    requires net < address < net + size - 1 < WRAP && size != 3
    requires (start, end) == if Wrap(address + 2) < net + size - 1 then (Wrap(address + 1), Wrap(net + size - 2))
                             else (Wrap(net + 1), Wrap(address - 1))
    ensures (net < start <= end < net + size - 1 && !(start <= address <= end))
       <==> address != 0xFFFF_FFFE && !(size == 4 && address == net + 1)
    ensures address != 0xFFFF_FFFE ==> IsDefaultIn(net, size, address, start, end)
  {
    assert Wrap(address + 2) == if address == 0xFFFF_FFFE then 0 else address + 2;
    assert Wrap(address + 1) == address + 1 && Wrap(address - 1) == address - 1 && Wrap(net + 1) == net + 1;
    assert Wrap(net + size - 2) == net + size - 2;
  }

  /** For a proper host and a mask of leading ones, the default range is that above the host if there is
      more than one address, and else that below it.  It is good except in two cases: the lower host of a
      /30, and the address 255.255.255.254, where the test wraps around. */
  method GreenRange(address: ipv4, netmask: ipv4, ghost hostBits: nat) returns (start: ipv4, end: ipv4)
    requires MaskOf(netmask, hostBits) && ProperHost(address, netmask)
    ensures GoodRange(address, netmask, start, end)
       <==> address != 0xFFFF_FFFE && !(hostBits == 2 && address == NetAddress(address, netmask) + 1)
    ensures address != 0xFFFF_FFFE ==> IsDefaultIn(NetAddress(address, netmask), Pow2(hostBits), address, start, end)
  {
    NetworkIsBlock(address, netmask, hostBits);
    SmallBlocks(hostBits);
    start, end := DefaultRange(address, netmask, NetAddress(address, netmask));
    RangeInBlock(NetAddress(address, netmask), Pow2(hostBits), address, start, end);
    GoodRangeIsInside(address, netmask, hostBits, start, end);
  }

  /** The network of an address, by the remainder. */
  lemma NetworkIsRemainder(address: ipv4, netmask: ipv4, hostBits: nat)
    requires MaskOf(netmask, hostBits)
    ensures NetAddress(address, netmask) + address % Pow2(hostBits) == address
  {
    NetworkIsBlock(address, netmask, hostBits);
    LowIsRemainder(address, hostBits);
  }
}
