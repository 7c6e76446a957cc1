/** IPv4 addresses on a little-endian host: stored in network byte order, counted in host order. */
module Ipv4 {
  import opened MachineWords

  function FromOctets(a: nat, b: nat, c: nat, d: nat): nat {
    a * 0x100_0000 + b * 0x1_0000 + c * 0x100 + d
  }

  predicate IsOctet(x: int) {
    0 <= x < 256
  }

  /** Octet k of a host-order address, 0 being the first one written. */
  function Octet(h: uint32, k: nat): (o: nat)
    ensures IsOctet(o)
  {
    if k == 0 then h / 0x100_0000
    else if k == 1 then h / 0x1_0000 % 0x100
    else if k == 2 then h / 0x100 % 0x100
    else h % 0x100
  }

  lemma OctetsOf(a: nat, b: nat, c: nat, d: nat)
    requires IsOctet(a) && IsOctet(b) && IsOctet(c) && IsOctet(d)
    ensures FromOctets(a, b, c, d) < TWO32
    ensures var h := FromOctets(a, b, c, d);
            Octet(h, 0) == a && Octet(h, 1) == b && Octet(h, 2) == c && Octet(h, 3) == d
  {
    var h := FromOctets(a, b, c, d);
    assert h / 0x1_0000 == a * 0x100 + b;
    assert h / 0x100 == a * 0x1_0000 + b * 0x100 + c;
  }

  lemma OctetsComplete(h: uint32)
    ensures FromOctets(Octet(h, 0), Octet(h, 1), Octet(h, 2), Octet(h, 3)) == h
  {
    var x, y := h / 0x1_0000, h / 0x100;
    assert h == y * 0x100 + h % 0x100;
    assert y == x * 0x100 + y % 0x100;
    assert x == (h / 0x100_0000) * 0x100 + x % 0x100;
  }

  /** htonl and ntohl. */
  function ByteSwap(h: uint32): (r: uint32) {
    OctetsOf(Octet(h, 3), Octet(h, 2), Octet(h, 1), Octet(h, 0));
    FromOctets(Octet(h, 3), Octet(h, 2), Octet(h, 1), Octet(h, 0))
  }

  lemma SwapTwice(h: uint32)
    ensures ByteSwap(ByteSwap(h)) == h
  {
    OctetsOf(Octet(h, 3), Octet(h, 2), Octet(h, 1), Octet(h, 0));
    OctetsComplete(h);
  }

  datatype Ipv4Addr = Ipv4Addr(ipBe: uint32) {
    function HostOrder(): uint32 {
      ByteSwap(ipBe)
    }

    /** operator+, which ignores its operand and adds one. */
    function Next(): Ipv4Addr {
      OfHost(if HostOrder() + 1 == TWO32 then 0 else HostOrder() + 1)
    }

    /** operator>, which compares the stored words. */
    predicate Greater(other: Ipv4Addr) {
      ipBe > other.ipBe
    }
  }

  function OfHost(h: uint32): (r: Ipv4Addr)
    ensures r.HostOrder() == h
  {
    SwapTwice(h);
    Ipv4Addr(ByteSwap(h))
  }

  lemma HostOrderDistinguishes(a: Ipv4Addr, b: Ipv4Addr)
    ensures a == b <==> a.HostOrder() == b.HostOrder()
  {
    SwapTwice(a.ipBe);
    SwapTwice(b.ipBe);
  }
}
