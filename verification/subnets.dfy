/** The 10.200.0.0/16 pool and the allocator of namespace subnets (intermux/subnets.py). */
module Subnets {
  import opened Basics

  /** An IPv4 network: network address and prefix length. */
  datatype Net = Net(base: nat, len: nat)

  const POOL := Net(0x0AC80000, 16)

  /** Number of addresses of a prefix length. */
  function Size(len: nat): (s: nat)
    requires len <= 32
    ensures s >= 1
    decreases 32 - len
  {
    if len == 32 then 1 else 2 * Size(len + 1)
  }

  /** What every ipaddress.IPv4Network satisfies: 32 bits, no host bits set. */
  ghost predicate WellFormed(n: Net) {
    n.len <= 32 && n.base % Size(n.len) == 0 && n.base + Size(n.len) <= 0x1_0000_0000
  }

  /** The address belongs to the network. */
  predicate Holds(n: Net, a: nat)
    requires n.len <= 32
  {
    n.base <= a && a < n.base + Size(n.len)
  }

  function Last(n: Net): nat
    requires n.len <= 32
  {
    n.base + Size(n.len) - 1
  }

  /** ipaddress' overlaps(): an end of one network lies in the other. */
  predicate Overlaps(a: Net, b: Net)
    requires a.len <= 32 && b.len <= 32
  {
    Holds(b, a.base) || Holds(b, Last(a)) || Holds(a, b.base) || Holds(a, Last(b))
  }

  /** The two networks have an address in common. */
  ghost predicate ShareAddress(a: Net, b: Net)
    requires a.len <= 32 && b.len <= 32
  {
    exists x: nat :: Holds(a, x) && Holds(b, x)
  }

  lemma OverlapsIffShared(a: Net, b: Net)
    requires a.len <= 32 && b.len <= 32
    ensures Overlaps(a, b) <==> ShareAddress(a, b)
  {
    if Overlaps(a, b) {
      var x := if Holds(b, a.base) then a.base else if Holds(b, Last(a)) then Last(a)
               else if Holds(a, b.base) then b.base else Last(b);
      assert Holds(a, x) && Holds(b, x);
    }
  }

  /** Third octet of an address. */
  function ThirdOctet(a: nat): nat { a / 256 % 256 }

  function SubnetForIndex(n: int): Option<Net> {
    if 1 <= n <= 254 then Some(PoolNet(n)) else None
  }

  /** 10.200.n.0/24. */
  function PoolNet(n: nat): Net { Net(POOL.base + 256 * n, 24) }

  function IndexOf(net: Net): Option<nat>
  {
    if net.len != 24 then None
    else if !Holds(POOL, net.base) then None
    else
      var n := ThirdOctet(net.base);
      if 1 <= n <= 254 then Some(n) else None
  }

  /** The test state.valid_pool_subnet, firewall.is_pool_subnet and routing.is_intermux_rule make on a
      parsed network: a /24 that is a subnet of the pool, third octet 1..254. */
  predicate IsPoolSubnet(net: Net) {
    net.len == 24 && POOL.base <= net.base && Last(net) <= Last(POOL) && 1 <= ThirdOctet(net.base) <= 254
  }

  function HostIp(net: Net): nat { net.base + 1 }
  function NsIp(net: Net): nat { net.base + 2 }

  lemma Sizes()
    ensures Size(24) == 256 && Size(16) == 65536
  {
  }

  lemma IndexRoundTrip(n: nat)
    requires 1 <= n <= 254
    ensures SubnetForIndex(n) == Some(PoolNet(n)) && IndexOf(PoolNet(n)) == Some(n)
    ensures WellFormed(PoolNet(n))
    ensures PoolNet(n) == Net(0x0AC8_0000 + 256 * n, 24)
    ensures HostIp(PoolNet(n)) == 0x0AC8_0000 + 256 * n + 1 && NsIp(PoolNet(n)) == 0x0AC8_0000 + 256 * n + 2
    ensures Holds(PoolNet(n), HostIp(PoolNet(n))) && Holds(PoolNet(n), NsIp(PoolNet(n)))
  {
    Sizes();
    assert (POOL.base + 256 * n) / 256 == 0x0AC800 + n;
  }

  /** index_of inverts subnet_for_index, and the four places that recognise a pool subnet agree. */
  lemma IndexOfInverse(net: Net)
    requires WellFormed(net)
    ensures IndexOf(net).Some? <==> IsPoolSubnet(net)
    ensures IndexOf(net).Some? ==> 1 <= IndexOf(net).value <= 254 && SubnetForIndex(IndexOf(net).value) == Some(net)
  {
    Sizes();
    if net.len == 24 {
      assert net.base == 256 * (net.base / 256);
      var q := net.base / 256;
      if Holds(POOL, net.base) {
        assert 0x0AC800 <= q < 0x0AC900;
        assert q % 256 == q - 0x0AC800;
      }
    }
  }

  /** The pool subnets are 10.200.1.0/24 to 10.200.254.0/24. */
  lemma PoolNumber(net: Net)
    requires net.len <= 32
    ensures IsPoolSubnet(net) && net.base % 256 == 0
            <==> exists n: nat :: 1 <= n <= 254 && net == Net(0x0AC8_0000 + 256 * n, 24)
    ensures IsPoolSubnet(net) && net.base % 256 == 0 ==> net == Net(0x0AC8_0000 + 256 * ThirdOctet(net.base), 24)
  {
    Sizes();
    if IsPoolSubnet(net) && net.base % 256 == 0 {
      var q := net.base / 256;
      assert net.base == 256 * q && 0x0AC800 <= q < 0x0AC900;
      assert q % 256 == q - 0x0AC800;
      assert net == Net(0x0AC8_0000 + 256 * ThirdOctet(net.base), 24);
    }
    if n: nat :| 1 <= n <= 254 && net == Net(0x0AC8_0000 + 256 * n, 24) {
      IndexRoundTrip(n);
      assert net.base / 256 == 0x0AC800 + n;
    }
  }

  lemma PoolNetsShareOnlyThemselves(m: nat, n: nat)
    requires 1 <= m <= 254 && 1 <= n <= 254
    ensures ShareAddress(PoolNet(m), PoolNet(n)) <==> m == n
  {
    Sizes();
    if m == n {
      assert Holds(PoolNet(m), PoolNet(m).base);
    }
  }

  predicate IsFree(net: Net, taken: seq<Net>)
    requires net.len <= 32 && forall u | u in taken :: u.len <= 32
  {
    forall u | u in taken :: !Overlaps(net, u)
  }

  /** No address of `net` belongs to a network of `taken`. */
  ghost predicate Unused(net: Net, taken: seq<Net>)
    requires net.len <= 32 && forall u | u in taken :: u.len <= 32
  {
    forall u | u in taken :: !ShareAddress(net, u)
  }

  lemma FreeIffUnused(net: Net, taken: seq<Net>)
    requires net.len <= 32 && forall u | u in taken :: u.len <= 32
    ensures IsFree(net, taken) <==> Unused(net, taken)
  {
    forall u | u in taken ensures Overlaps(net, u) <==> ShareAddress(net, u) {
      OverlapsIffShared(net, u);
    }
  }

  /** The preferred subnet when it is an unused pool subnet, else the lowest unused one; None exactly
      when all 254 share an address with a used network. */
  method PickSubnet(used: seq<Net>, preferred: Option<Net>) returns (r: Option<Net>)
    requires forall u | u in used :: u.len <= 32
    requires preferred.Some? ==> WellFormed(preferred.value)
    ensures preferred.Some? && IsPoolSubnet(preferred.value) && Unused(preferred.value, used) ==> r == preferred
    ensures !(preferred.Some? && IsPoolSubnet(preferred.value) && Unused(preferred.value, used)) ==>
              match r
              case Some(net) =>
                exists n: nat | 1 <= n <= 254 :: net == PoolNet(n) && Unused(net, used) &&
                                                 forall k: nat | 1 <= k < n :: !Unused(PoolNet(k), used)
              case None => forall k: nat | 1 <= k <= 254 :: !Unused(PoolNet(k), used)
  {
    if preferred.Some? {
      IndexOfInverse(preferred.value);
      FreeIffUnused(preferred.value, used);
      if IndexOf(preferred.value).Some? && IsFree(preferred.value, used) {
        return preferred;
      }
    }
    for n := 1 to 255
      invariant forall k: nat | 1 <= k < n :: !Unused(PoolNet(k), used)
    {
      var candidate := PoolNet(n);
      FreeIffUnused(candidate, used);
      if IsFree(candidate, used) {
        return Some(candidate);
      }
    }
    return None;
  }
}
