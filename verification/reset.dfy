/** reset: everything goes but the interfaces whose namespace still holds processes (intermux/engine.py). */
module Reset {
  import opened Basics
  import opened Subnets
  import opened Firewall
  import opened Procs
  import opened Record
  import opened Adopt
  import opened Build

  // -------------------------------------------------------------- what stays

  /** Namespaces of the kernel that hold a process. */
  function BusySet(procs: seq<Proc>, spaces: set<Hash>): set<Hash> {
    set h | h in spaces && SpaceOf(procs, spaces, h, None) != {}
  }

  /** Recorded interfaces with a busy namespace. */
  function Staying(nm: Naming, r: Saved, busy: set<Hash>): set<string> { set i | i in r.subnets && nm.hash(i) in busy }

  function NetsOf(nm: Naming, r: Saved, busy: set<Hash>): set<nat> {
    set i | i in Staying(nm, r, busy) :: r.subnets[i]
  }

  /** The record a reset saves. */
  function ResetRecord(nm: Naming, r: Saved, busy: set<Hash>): Saved {
    var gone := r.subnets.Keys - Staying(nm, r, busy);
    Without(r, gone).(bindings := Filter(r.bindings, (b: Binding) => b.ns in busy), adoptions := [])
  }

  /** What a reset leaves in the record: of the bindings, in their order, those in a busy namespace; of the
      interfaces, with subnet, DNS choice and limit, those with one; no adoption. */
  ghost predicate ResetLeaves(nm: Naming, r0: Saved, r1: Saved, busy: set<Hash>) {
    && (forall b :: b in r1.bindings <==> b in r0.bindings && b.ns in busy) && Within(r1.bindings, r0.bindings)
    && (forall i :: if i in r0.subnets && nm.hash(i) in busy then SettingsSame(r0, r1, i) else SettingsGone(r1, i))
    && r1.adoptions == []
  }

  lemma ResetRecordIs(nm: Naming, r: Saved, busy: set<Hash>)
    requires Good(nm, r)
    ensures ResetLeaves(nm, r, ResetRecord(nm, r, busy), busy)
  {
    FilterWithin(r.bindings, (b: Binding) => b.ns in busy);
  }

  /** The busy namespaces are the ones some process is in. */
  lemma BusySetIs(procs: seq<Proc>, spaces: set<Hash>)
    ensures forall h :: h in BusySet(procs, spaces) <==> h in spaces && exists p :: p in procs && p.netns == Some(h)
  {
    forall h ensures h in BusySet(procs, spaces) <==> h in spaces && exists p :: p in procs && p.netns == Some(h) {
      SpaceIff(procs, spaces, h, None);
      if p :| p in procs && p.netns == Some(h) {
        assert h in spaces ==> InSpaceOf(procs, spaces, h, None, p.pid);
      }
    }
  }

  /** A process of the user in one of the namespaces. */
  ghost predicate RunsInside(procs: seq<Proc>, spaces: set<Hash>, uid: nat, p: Pid) {
    exists q :: q in procs && q.pid == p && q.uid == uid && exists h :: h in spaces && q.netns == Some(h)
  }

  predicate Mentions(spec: Spec, nets: set<nat>) { exists n: nat | n in nets :: Cidr(PoolNet(n)) in spec }

  /** A rule a reset leaves alone: it selects no pool subnet, or names one that stays. */
  predicate Keeps(spec: Spec, nets: set<nat>) { !SelectsPool(spec) || Mentions(spec, nets) }

  function KeptRules(c: Chain, nets: set<nat>): Chain { Filter(c, (x: Spec) => Keeps(x, nets)) }

  predicate OwnDropped(x: FromRule, nets: set<nat>) { exists n: nat | 1 <= n <= 254 :: x == OwnRule(n) && n !in nets }

  /** A namespace subnet of an interface that stays. */
  ghost predicate StayingSubnet(nm: Naming, r: Saved, busy: set<Hash>, n: nat) {
    exists i :: i in r.subnets && nm.hash(i) in busy && r.subnets[i] == n
  }

  lemma NetsAre(nm: Naming, r: Saved, busy: set<Hash>)
    ensures forall n :: n in NetsOf(nm, r, busy) <==> StayingSubnet(nm, r, busy, n)
  {
  }

  /** A NAT or forwarding rule is left alone exactly when none of its source and destination matches that are
      not negated is 10.200.1.0/24 to 10.200.254.0/24, or the subnet of an interface that stays is a word of it. */
  lemma KeepsIff(nm: Naming, r: Saved, busy: set<Hash>, spec: Spec)
    ensures Keeps(spec, NetsOf(nm, r, busy))
            <==> || !(exists i, n: nat :: SelectsNet(spec, i, n))
                 || exists n: nat :: StayingSubnet(nm, r, busy, n) && Cidr(Net(0x0AC8_0000 + 256 * n, 24)) in spec
  {
    NetsAre(nm, r, busy);
    SelectsIff(spec);
    if n: nat :| StayingSubnet(nm, r, busy, n) && Cidr(Net(0x0AC8_0000 + 256 * n, 24)) in spec {
      assert Cidr(PoolNet(n)) in spec;
    }
    if n: nat :| n in NetsOf(nm, r, busy) && Cidr(PoolNet(n)) in spec {
      assert StayingSubnet(nm, r, busy, n) && PoolNet(n) == Net(0x0AC8_0000 + 256 * n, 24);
    }
  }

  /** A from-rule goes exactly when it is the one of a subnet of no interface that stays. */
  lemma OwnDroppedIff(nm: Naming, r: Saved, busy: set<Hash>, x: FromRule)
    ensures OwnDropped(x, NetsOf(nm, r, busy))
            <==> exists n: nat :: 1 <= n <= 254 && !StayingSubnet(nm, r, busy, n)
                                  && x == FromRule(Net(0x0AC8_0000 + 256 * n, 24), 1000 + n, 1000 + n)
  {
    NetsAre(nm, r, busy);
  }

  /** Between k0 and k only things were removed, and nothing that stays. */
  ghost predicate Pruned(k0: Kernel, k: Kernel, busy: set<Hash>, nets: set<nat>) {
    && k0.namespaces * busy <= k.namespaces <= k0.namespaces
    && k0.veths * busy <= k.veths <= k0.veths
    && k.rules <= k0.rules && (forall x | x in k0.rules && !OwnDropped(x, nets) :: x in k.rules)
    && SameKept(k0.chains.post, k.chains.post, nets) && SameKept(k0.chains.fwd, k.chains.fwd, nets)
    && (forall n | n in nets :: TableAt(k.tables, NetTable(n)) == TableAt(k0.tables, NetTable(n)))
  }

  ghost predicate SameKept(c0: Chain, c: Chain, nets: set<nat>) {
    KeptRules(c, nets) == KeptRules(c0, nets) && forall x | x in c :: x in c0
  }

  /** Nothing but what stays is left. */
  ghost predicate OnlyStaying(k: Kernel, busy: set<Hash>, nets: set<nat>) {
    && k.namespaces <= busy && k.veths <= busy && (forall x | x in k.rules :: !OwnDropped(x, nets))
    && KeptRules(k.chains.post, nets) == k.chains.post && KeptRules(k.chains.fwd, nets) == k.chains.fwd
  }

  lemma PrunedTwice(k0: Kernel, k1: Kernel, k2: Kernel, busy: set<Hash>, nets: set<nat>)
    requires Pruned(k0, k1, busy, nets) && Pruned(k1, k2, busy, nets)
    ensures Pruned(k0, k2, busy, nets)
    ensures OnlyStaying(k1, busy, nets) ==> OnlyStaying(k2, busy, nets)
  {
    if OnlyStaying(k1, busy, nets) {
      AllKept(k1.chains.post, k2.chains.post, nets);
      AllKept(k1.chains.fwd, k2.chains.fwd, nets);
    }
  }

  lemma AllKept(c0: Chain, c: Chain, nets: set<nat>)
    requires SameKept(c0, c, nets) && KeptRules(c0, nets) == c0
    ensures c == c0
  {
    forall x | x in c ensures Keeps(x, nets) {
      assert x in KeptRules(c0, nets);
    }
    FilterAll(c, (x: Spec) => Keeps(x, nets));
  }

  /** An interface that stays has the plumbing it had. */
  lemma PrunedKeeps(nm: Naming, r: Saved, k0: Kernel, k: Kernel, busy: set<Hash>)
    requires Good(nm, r) && Pruned(k0, k, busy, NetsOf(nm, r, busy))
    ensures KeptPlumbing(nm, r, k0, k, r.subnets.Keys - Staying(nm, r, busy))
  {
    forall i | i in Staying(nm, r, busy)
      ensures PlumbingOf(k, i, r.subnets[i], nm.hash(i)) == PlumbingOf(k0, i, r.subnets[i], nm.hash(i))
    {
      PrunedKeepsOne(k0, k, busy, NetsOf(nm, r, busy), i, r.subnets[i], nm.hash(i));
    }
  }

  lemma PrunedKeepsOne(k0: Kernel, k: Kernel, busy: set<Hash>, nets: set<nat>, i: string, n: nat, h: Hash)
    requires Pruned(k0, k, busy, nets) && n in nets && h in busy
    ensures PlumbingOf(k, i, n, h) == PlumbingOf(k0, i, n, h)
  {
    assert h in k0.namespaces <==> h in k0.namespaces * busy;
    assert h in k0.veths <==> h in k0.veths * busy;
    OwnStays(n, nets);
    NatStays(k0.chains, k.chains, nets, i, n);
  }

  lemma NatStays(c0: Chains, c: Chains, nets: set<nat>, i: string, n: nat)
    requires SameKept(c0.post, c.post, nets) && SameKept(c0.fwd, c.fwd, nets) && n in nets
    ensures NatOf(c, i, n) == NatOf(c0, i, n)
  {
    KeptIn(c0.post, c.post, nets, Masquerade(PoolNet(n), i), n, 1);
    KeptIn(c0.fwd, c.fwd, nets, AcceptOut(PoolNet(n)), n, 1);
    KeptIn(c0.fwd, c.fwd, nets, AcceptBack(PoolNet(n)), n, 1);
  }

  lemma OwnStays(n: nat, nets: set<nat>)
    requires n in nets
    ensures !OwnDropped(OwnRule(n), nets)
  {
  }

  lemma KeptIn(c0: Chain, c: Chain, nets: set<nat>, spec: Spec, n: nat, at: nat)
    requires SameKept(c0, c, nets) && n in nets && at < |spec| && spec[at] == Cidr(PoolNet(n))
    ensures spec in c <==> spec in c0
  {
    assert Keeps(spec, nets);
    assert spec in KeptRules(c, nets) <==> spec in KeptRules(c0, nets);
  }

  // -------------------------------------------------------------- the record and the kernel agree again

  lemma ResetGood(nm: Naming, r: Saved, busy: set<Hash>)
    requires Good(nm, r)
    ensures Good(nm, ResetRecord(nm, r, busy))
  {
    var r1 := ResetRecord(nm, r, busy);
    FilterApps(r.bindings, (b: Binding) => b.ns in busy);
    forall b | b in r1.bindings ensures Derived(nm, r1, b) {
      assert Derived(nm, r, b);
      assert b.iface in Staying(nm, r, busy);
    }
  }

  /** The subnets of NAT rules and from-rules that stay are those of interfaces that stay. */
  lemma OwnRuleNets(n: nat, iface: string, nets: set<nat>)
    requires 1 <= n <= 254
    ensures Keeps(Masquerade(PoolNet(n), iface), nets) <==> n in nets
    ensures Keeps(AcceptOut(PoolNet(n)), nets) <==> n in nets
    ensures Keeps(AcceptBack(PoolNet(n)), nets) <==> n in nets
  {
    OwnRulesSelected(n, iface);
    NamesOne(Masquerade(PoolNet(n), iface), n, nets);
    NamesOne(AcceptOut(PoolNet(n)), n, nets);
    NamesOne(AcceptBack(PoolNet(n)), n, nets);
  }

  lemma OwnRuleDropped(n: nat, nets: set<nat>)
    requires 1 <= n <= 254
    ensures OwnDropped(OwnRule(n), nets) <==> n !in nets
  {
  }

  /** A rule with one address mentions a subnet that stays exactly when it is that one. */
  lemma NamesOne(spec: Spec, n: nat, nets: set<nat>)
    requires |spec| > 1 && spec[1] == Cidr(PoolNet(n)) && forall k | 0 <= k < |spec| && k != 1 :: spec[k].Word?
    ensures Mentions(spec, nets) <==> n in nets
  {
    if m: nat :| m in nets && Cidr(PoolNet(m)) in spec {
      var k :| 0 <= k < |spec| && spec[k] == Cidr(PoolNet(m));
      assert k == 1;
    }
  }

  lemma StayingNet(nm: Naming, r: Saved, busy: set<Hash>, i: string)
    requires Good(nm, r) && i in r.subnets
    ensures r.subnets[i] in NetsOf(nm, r, busy) <==> i in Staying(nm, r, busy)
    ensures i in Staying(nm, r, busy) ==> Recorded(ResetRecord(nm, r, busy), i, r.subnets[i])
  {
  }

  /** The new record covers what stays, when the old one had its namespaces, veths and masquerade rules. */
  lemma StayingCovered(nm: Naming, r: Saved, k: Kernel, busy: set<Hash>)
    requires Good(nm, r) && OnlyStaying(k, busy, NetsOf(nm, r, busy))
    requires k.namespaces + k.veths <= Names(nm, r) && MasqueradesOwned(nm, r, k.chains, busy)
    ensures Covered(nm, ResetRecord(nm, r, busy), k)
  {
    var r1, nets := ResetRecord(nm, r, busy), NetsOf(nm, r, busy);
    forall h | h in k.namespaces || h in k.veths ensures h in Names(nm, r1) {
      var i :| i in r.subnets && nm.hash(i) == h;
      StayingNet(nm, r, busy, i);
    }
    forall n: nat | 1 <= n <= 254 && OwnRule(n) in k.rules ensures n in r1.subnets.Values {
      OwnRuleDropped(n, nets);
      NetStays(nm, r, busy, n);
    }
    forall n: nat | 1 <= n <= 254 && (AcceptOut(PoolNet(n)) in k.chains.fwd || AcceptBack(PoolNet(n)) in k.chains.fwd)
      ensures n in r1.subnets.Values
    {
      OwnRuleNets(n, "", nets);
      NetStays(nm, r, busy, n);
    }
    forall n: nat, i: string | 1 <= n <= 254 && Masquerade(PoolNet(n), i) in k.chains.post ensures Recorded(r1, i, n) {
      OwnRuleNets(n, i, nets);
      StayingNet(nm, r, busy, i);
    }
  }

  /** From a covered host a reset that leaves only what stays ends covered. */
  lemma ResetCovered(nm: Naming, r: Saved, k: Kernel, busy: set<Hash>)
    requires Good(nm, r) && Covered(nm, r, k) && OnlyStaying(k, busy, NetsOf(nm, r, busy))
    ensures Covered(nm, ResetRecord(nm, r, busy), k)
  {
    StayingCovered(nm, r, k, busy);
  }

  /** Masquerade rules of subnets that stay belong to the interface the subnet is recorded for. */
  ghost predicate MasqueradesOwned(nm: Naming, r: Saved, cs: Chains, busy: set<Hash>) {
    forall n: nat, i: string | n in NetsOf(nm, r, busy) && Masquerade(PoolNet(n), i) in cs.post :: Recorded(r, i, n)
  }

  /** Whatever the kernel held before and however many removals failed in the past: once only what stays is
      left, record and kernel agree again exactly when every busy namespace was recorded and no stale
      masquerade rule of a staying subnet names another interface. Both can be told before the reset. */
  lemma ResetCoversIff(nm: Naming, r: Saved, k0: Kernel, k: Kernel, busy: set<Hash>)
    requires Good(nm, r) && busy <= k0.namespaces
    requires Pruned(k0, k, busy, NetsOf(nm, r, busy)) && OnlyStaying(k, busy, NetsOf(nm, r, busy))
    ensures Covered(nm, ResetRecord(nm, r, busy), k)
            <==> busy <= Names(nm, r) && MasqueradesOwned(nm, r, k0.chains, busy)
  {
    var r1, nets := ResetRecord(nm, r, busy), NetsOf(nm, r, busy);
    assert k.namespaces == busy;
    forall n: nat, i: string | n in nets
      ensures Masquerade(PoolNet(n), i) in k.chains.post <==> Masquerade(PoolNet(n), i) in k0.chains.post
    {
      NatStays(k0.chains, k.chains, nets, i, n);
    }
    if Covered(nm, r1, k) {
      CoveredTells(nm, r, k, busy);
    } else if busy <= Names(nm, r) && MasqueradesOwned(nm, r, k0.chains, busy) {
      StayingCovered(nm, r, k, busy);
    }
  }

  /** Concrete: a masquerade rule left from when the subnet was another interface's stays, and the new record does
      not know it. */
  lemma StaleMasqueradeWitness(nm: Naming)
    requires nm.hash("wlan0") == 7 && "wlan0" in nm.known
    ensures var r := EMPTY.(subnets := map["wlan0" := 1]);
            var k := BARE.(namespaces := {7}, chains := Chains([Masquerade(PoolNet(1), "eth0")], []));
            && Good(nm, r) && {7} <= Names(nm, r) && OnlyStaying(k, {7}, NetsOf(nm, r, {7}))
            && !Covered(nm, ResetRecord(nm, r, {7}), k)
  {
    var r := EMPTY.(subnets := map["wlan0" := 1]);
    var k := BARE.(namespaces := {7}, chains := Chains([Masquerade(PoolNet(1), "eth0")], []));
    assert "wlan0" in r.subnets && "wlan0" in Staying(nm, r, {7}) && 7 in Names(nm, r);
    StayingNet(nm, r, {7}, "wlan0");
    OwnRuleNets(1, "eth0", NetsOf(nm, r, {7}));
    assert k.chains.post[0] in k.chains.post;
    ResetCoversIff(nm, r, k, k, {7});
  }

  /** Concrete: a busy namespace no record knows stays, and the new record does not know it either. */
  lemma UnrecordedWitness(nm: Naming)
    ensures var k := BARE.(namespaces := {7});
            && Good(nm, EMPTY) && OnlyStaying(k, {7}, NetsOf(nm, EMPTY, {7}))
            && !Covered(nm, ResetRecord(nm, EMPTY, {7}), k)
  {
    var k := BARE.(namespaces := {7});
    assert 7 in k.namespaces && 7 !in Names(nm, EMPTY);
    ResetCoversIff(nm, EMPTY, k, k, {7});
  }

  lemma CoveredTells(nm: Naming, r: Saved, k: Kernel, busy: set<Hash>)
    requires Good(nm, r) && Covered(nm, ResetRecord(nm, r, busy), k) && busy <= k.namespaces
    ensures busy <= Names(nm, r) && MasqueradesOwned(nm, r, k.chains, busy)
  {
    var r1 := ResetRecord(nm, r, busy);
    forall h | h in busy ensures h in Names(nm, r) {
      var i :| i in r1.subnets && nm.hash(i) == h;
      assert i in r.subnets;
    }
    forall n: nat, i: string | n in NetsOf(nm, r, busy) && Masquerade(PoolNet(n), i) in k.chains.post
      ensures Recorded(r, i, n)
    {
      assert Recorded(r1, i, n);
    }
  }

  lemma NetStays(nm: Naming, r: Saved, busy: set<Hash>, n: nat)
    requires Good(nm, r) && n in NetsOf(nm, r, busy)
    ensures n in ResetRecord(nm, r, busy).subnets.Values
  {
    var i :| i in Staying(nm, r, busy) && r.subnets[i] == n;
    StayingNet(nm, r, busy, i);
  }

  /** A second reset on the same busy namespaces saves the same record. */
  lemma ResetTwiceSame(nm: Naming, r: Saved, busy: set<Hash>)
    requires Good(nm, r)
    ensures var r1 := ResetRecord(nm, r, busy);
            ResetRecord(nm, r1, busy) == r1 && NetsOf(nm, r1, busy) == NetsOf(nm, r, busy)
  {
    var r1 := ResetRecord(nm, r, busy);
    FilterAll(r1.bindings, (b: Binding) => b.ns in busy);
    assert Staying(nm, r1, busy) == Staying(nm, r, busy);
    assert r1.subnets.Keys == Staying(nm, r, busy);
    WithoutNothing(r1);
    forall i | i in Staying(nm, r, busy) ensures r1.subnets[i] == r.subnets[i] {
      StayingNet(nm, r, busy, i);
    }
    assert r1.subnets.Keys - Staying(nm, r1, busy) == {};
  }
}
