/** The route pass over every recorded interface (intermux/engine.py, refresh_routes). */
module Refresh {
  import opened Basics
  import opened Subnets
  import opened Record
  import opened Adopt
  import opened Machine
  import opened Engine
  import opened Build
  import opened Routing

  function BoundOf(nm: Naming, r: Saved, iface: string): Bound
    requires iface in r.subnets
  {
    Bound.Bound(PoolNet(r.subnets[iface]), iface, nm.veth(nm.hash(iface)))
  }

  function TableOf(k: Kernel, n: nat): Routing.Table { TableAt(k.tables, NetTable(n)) }

  /** Tables that kept to their interface and veth still do. */
  ghost predicate StayTight(nm: Naming, r: Saved, k0: Kernel, k: Kernel) {
    forall i | i in r.subnets && NoLeak(TableOf(k0, r.subnets[i]), BoundOf(nm, r, i)) ::
      NoLeak(TableOf(k, r.subnets[i]), BoundOf(nm, r, i))
  }

  /** A pass that goes through makes the table exact: it kept to its interface and veth, or InterMux is the only
      one who writes to it. */
  ghost predicate Settled(nm: Naming, t: Routing.Table, b: Bound) { nm.ownTables || NoLeak(t, b) }

  /** Nothing but tables, rules and chains of the host differs, and no namespace or veth. */
  ghost predicate OnlyRouting(k: Kernel, k': Kernel) {
    k' == k.(tables := k'.tables, rules := k'.rules, chains := k'.chains)
  }

  /** ensure_policy for one interface: its own table stays tight and, when the pass goes through, is exact. */
  method EnsureOne(m: Host, iface: string, n: nat, gateway: Option<string>) returns (ok: bool)
    requires m.Valid() && Recorded(m.disk, iface, n)
    modifies m`kern, m`dead, m`trace, m`faults
    ensures m.Valid() && old(m.trace) <= m.trace && OnlyRouting(old(m.kern), m.kern)
    ensures forall j | j != n :: TableOf(m.kern, j) == TableOf(old(m.kern), j)
    ensures NoLeak(TableOf(old(m.kern), n), BoundOf(m.nm, m.disk, iface)) ==>
              NoLeak(TableOf(m.kern, n), BoundOf(m.nm, m.disk, iface))
    ensures Settled(m.nm, TableOf(old(m.kern), n), BoundOf(m.nm, m.disk, iface)) ==>
              (ok ==> TableOk(TableOf(m.kern, n), PolicyFor(m.nm, iface, n, gateway)))
              && (m.faults == old(m.faults) ==> ok)
    ensures m.kern.chains == old(m.kern).chains
    ensures old(m.faults) <= m.faults
  {
    ghost var t := TableOf(m.kern, n);
    var p := PolicyFor(m.nm, iface, n, gateway);
    ok := m.EnsurePolicy(n, p);
    if NoLeak(t, BoundOf(m.nm, m.disk, iface)) {
      TrailKeepsNoLeak(t, BoundOf(m.nm, m.disk, iface), gateway, TableOf(m.kern, n));
    }
  }

  /** One interface of the pass; `listed` is whether its table could be read. */
  method RefreshOne(m: Host, iface: string, n: nat, full: bool, listed: bool) returns (exact: bool)
    requires m.Valid() && Recorded(m.disk, iface, n)
    modifies m`kern, m`dead, m`trace, m`faults
    ensures m.Valid() && old(m.trace) <= m.trace && OnlyRouting(old(m.kern), m.kern)
    ensures forall j | j != n :: TableOf(m.kern, j) == TableOf(old(m.kern), j)
    ensures exact ==> iface in m.links && m.links[iface].bindable
    ensures NoLeak(TableOf(old(m.kern), n), BoundOf(m.nm, m.disk, iface)) ==>
              NoLeak(TableOf(m.kern, n), BoundOf(m.nm, m.disk, iface))
    ensures Settled(m.nm, TableOf(old(m.kern), n), BoundOf(m.nm, m.disk, iface)) && exact ==>
              TableOk(TableOf(m.kern, n), PolicyFor(m.nm, iface, n, m.links[iface].gateway))
    ensures iface !in m.links || !m.links[iface].bindable ==> m.kern == old(m.kern)
    ensures forall i, j | j != n :: NatOf(m.kern.chains, i, j) == NatOf(old(m.kern).chains, i, j)
    ensures old(m.faults) <= m.faults
    ensures m.faults == old(m.faults) && iface in m.links && m.links[iface].bindable ==>
              (Settled(m.nm, TableOf(old(m.kern), n), BoundOf(m.nm, m.disk, iface)) ==> exact)
              && (full && m.nm.hash(iface) in m.kern.veths ==> NatOf(m.kern.chains, iface, n) == (true, true, true))
  {
    if iface !in m.links || !m.links[iface].bindable { return false; }
    if full && m.nm.hash(iface) in m.kern.veths {
      var forwarding := m.Other();
      ghost var cs := m.kern.chains;
      var rules := m.EnsureNat(n, iface);
      EnsuredNat(cs, n, iface);
    }
    exact := listed && TableOk(TableOf(m.kern, n), PolicyFor(m.nm, iface, n, m.links[iface].gateway));
    if !exact {
      exact := EnsureOne(m, iface, n, m.links[iface].gateway);
    }
  }

  /** The tables of these interfaces are exactly the wanted ones. */
  ghost predicate Exact(nm: Naming, r: Saved, links: map<string, Link>, k0: Kernel, k: Kernel, done: set<string>) {
    forall i | i in done ::
      && i in r.subnets && i in links
      && (Settled(nm, TableOf(k0, r.subnets[i]), BoundOf(nm, r, i)) ==>
            TableOk(TableOf(k, r.subnets[i]), PolicyFor(nm, i, r.subnets[i], links[i].gateway)))
  }

  ghost predicate SameTables(r: Saved, k0: Kernel, k: Kernel, todo: set<string>) {
    forall i | i in todo && i in r.subnets :: TableOf(k, r.subnets[i]) == TableOf(k0, r.subnets[i])
  }

  /** Every bindable interface with a settled table is done, and has its NAT rules in a full pass. */
  ghost predicate AllDone(nm: Naming, r: Saved, links: map<string, Link>, k0: Kernel, k: Kernel, full: bool,
                          ifaces: set<string>, done: set<string>)
  {
    forall i | i in ifaces && i in r.subnets && i in links && links[i].bindable ::
      && (Settled(nm, TableOf(k0, r.subnets[i]), BoundOf(nm, r, i)) ==> i in done)
      && (full && nm.hash(i) in k0.veths ==> NatOf(k.chains, i, r.subnets[i]) == (true, true, true))
  }

  lemma NextTight(nm: Naming, r: Saved, links: map<string, Link>, k0: Kernel, k: Kernel, k': Kernel, iface: string,
                  exact: bool, todo: set<string>, done: set<string>)
    requires CollisionFree(nm) && Good(nm, r) && iface in r.subnets && iface in todo && done !! todo
    requires exact ==> iface in links
    requires StayTight(nm, r, k0, k) && Exact(nm, r, links, k0, k, done) && SameTables(r, k0, k, todo)
    requires forall j | j != r.subnets[iface] :: TableOf(k', j) == TableOf(k, j)
    requires var n, b := r.subnets[iface], BoundOf(nm, r, iface);
             && (NoLeak(TableOf(k, n), b) ==> NoLeak(TableOf(k', n), b))
             && (Settled(nm, TableOf(k, n), b) && exact ==>
                   TableOk(TableOf(k', n), PolicyFor(nm, iface, n, links[iface].gateway)))
    ensures StayTight(nm, r, k0, k') && SameTables(r, k0, k', todo - {iface})
    ensures Exact(nm, r, links, k0, k', if exact then done + {iface} else done)
  {
    OthersApart(nm, r, iface);
  }

  lemma NextDone(nm: Naming, r: Saved, links: map<string, Link>, k0: Kernel, k: Kernel, k': Kernel, full: bool,
                 iface: string, exact: bool, todo: set<string>, done: set<string>)
    requires CollisionFree(nm) && Good(nm, r) && iface in r.subnets && iface in todo && todo <= r.subnets.Keys
    requires AllDone(nm, r, links, k0, k, full, r.subnets.Keys - todo, done)
    requires TableOf(k, r.subnets[iface]) == TableOf(k0, r.subnets[iface])
    requires forall i, j | j != r.subnets[iface] :: NatOf(k'.chains, i, j) == NatOf(k.chains, i, j)
    requires iface in links && links[iface].bindable ==>
               (Settled(nm, TableOf(k, r.subnets[iface]), BoundOf(nm, r, iface)) ==> exact)
               && (full && nm.hash(iface) in k0.veths ==>
                     NatOf(k'.chains, iface, r.subnets[iface]) == (true, true, true))
    ensures AllDone(nm, r, links, k0, k', full, r.subnets.Keys - (todo - {iface}),
                    if exact then done + {iface} else done)
  {
    OthersApart(nm, r, iface);
  }

  /** One turn of the loop. */
  method RefreshNext(m: Host, iface: string, full: bool, ghost k0: Kernel, ghost todo: set<string>, done: set<string>)
    returns (done': set<string>)
    requires m.Valid() && iface in m.disk.subnets && iface in todo && todo <= m.disk.subnets.Keys && done !! todo
    requires StayTight(m.nm, m.disk, k0, m.kern) && Exact(m.nm, m.disk, m.links, k0, m.kern, done)
    requires SameTables(m.disk, k0, m.kern, todo) && m.kern.veths == k0.veths
    modifies m`kern, m`dead, m`trace, m`faults
    ensures m.Valid() && old(m.trace) <= m.trace && OnlyRouting(old(m.kern), m.kern)
    ensures StayTight(m.nm, m.disk, k0, m.kern) && Exact(m.nm, m.disk, m.links, k0, m.kern, done')
    ensures SameTables(m.disk, k0, m.kern, todo - {iface}) && done' <= done + {iface}
    ensures old(m.faults) <= m.faults
    ensures m.faults == old(m.faults)
            && AllDone(m.nm, m.disk, m.links, k0, old(m.kern), full, m.disk.subnets.Keys - todo, done) ==>
              AllDone(m.nm, m.disk, m.links, k0, m.kern, full, m.disk.subnets.Keys - (todo - {iface}), done')
  {
    m.Now();
    ghost var k, faults := m.kern, m.faults;
    var listed: bool := *;
    var exact := RefreshOne(m, iface, m.disk.subnets[iface], full, listed);
    done' := if exact then done + {iface} else done;
    NextTight(m.nm, m.disk, m.links, k0, k, m.kern, iface, exact, todo, done);
    if m.faults == faults && AllDone(m.nm, m.disk, m.links, k0, k, full, m.disk.subnets.Keys - todo, done) {
      NextDone(m.nm, m.disk, m.links, k0, k, m.kern, full, iface, exact, todo, done);
    }
  }

  /** refresh_routes: a table that kept to its interface still does, and every interface the pass went through for
      has exactly the wanted table for its gateway of the moment; without a failed command that is every bindable
      one, with its NAT rules if the pass is full. Where other programs write to the tables, exactness needs one
      that kept to its interface before. */
  method RefreshRoutes(m: Host, full: bool) returns (done: set<string>)
    requires m.Valid()
    modifies m`kern, m`dead, m`trace, m`faults
    ensures m.Valid() && old(m.trace) <= m.trace && OnlyRouting(old(m.kern), m.kern)
    ensures StayTight(m.nm, m.disk, old(m.kern), m.kern)
    ensures Exact(m.nm, m.disk, m.links, old(m.kern), m.kern, done)
    ensures old(m.faults) <= m.faults
    ensures m.faults == old(m.faults) ==>
              AllDone(m.nm, m.disk, m.links, old(m.kern), m.kern, full, m.disk.subnets.Keys, done)
  {
    ghost var k0 := m.kern;
    var todo := m.disk.subnets.Keys;
    done := {};
    while todo != {}
      invariant m.Valid() && old(m.trace) <= m.trace && OnlyRouting(k0, m.kern)
      invariant todo <= m.disk.subnets.Keys && done !! todo && old(m.faults) <= m.faults
      invariant StayTight(m.nm, m.disk, k0, m.kern) && Exact(m.nm, m.disk, m.links, k0, m.kern, done)
      invariant SameTables(m.disk, k0, m.kern, todo)
      invariant m.faults == old(m.faults) ==>
                  AllDone(m.nm, m.disk, m.links, k0, m.kern, full, m.disk.subnets.Keys - todo, done)
      decreases todo
    {
      var iface :| iface in todo;
      done := RefreshNext(m, iface, full, k0, todo, done);
      todo := todo - {iface};
    }
    assert m.disk.subnets.Keys - {} == m.disk.subnets.Keys;
  }

  // -------------------------------------------------------------- adoptions

  /** The slots of these adoptions keep their marking tables and IPv4 rules, and route tables that kept to their
      interface still do. */
  ghost predicate SlotsStayTight(xs: seq<Adoption>, k0: Kernel, k: Kernel) {
    forall a | a in xs && IsSlot(a.slot) :: SlotStays(k0.slots[a.slot], k.slots[a.slot], a.iface)
  }

  ghost predicate SlotStays(s0: SlotState, s: SlotState, iface: string) {
    s.nft == s0.nft && (s0.mark4 ==> s.mark4) && (SlotSafe(s0.table, iface) ==> SlotSafe(s.table, iface))
  }

  /** refresh_policy of one adoption: re-apply what a listing misses. */
  method RefreshSlot(m: Host, a: Adoption, gateway: Option<string>) returns (healthy: bool)
    requires m.Valid() && IsSlot(a.slot)
    modifies m`kern, m`dead, m`trace, m`faults
    ensures m.Valid() && old(m.trace) <= m.trace
    ensures OnlySlot(old(m.kern), m.kern, a.slot) && m.kern.groups == old(m.kern).groups
    ensures healthy ==> Healthy(m.nm, m.kern.slots[a.slot], a.iface, gateway)
    ensures SlotStays(old(m.kern).slots[a.slot], m.kern.slots[a.slot], a.iface)
    ensures old(m.faults) <= m.faults
    ensures m.faults == old(m.faults) && !healthy ==>
              !m.nm.ownTables
              && ReplaceAll(old(m.kern).slots[a.slot].table, Replacements(SlotPolicy(a.iface, gateway))) == None
  {
    m.Now();
    var s := m.kern.slots[a.slot];
    var complete := TableComplete(s.table, a.iface, gateway);
    healthy := complete && s.mark4 && s.mark6;
    if healthy && m.nm.ownTables {
      OwnListedSafe(s.table, a.iface, gateway);
    }
    if !healthy {
      healthy := m.ApplyPolicy(a.slot, a.iface, gateway, |m.trace|);
      if healthy {
        BothRoutesComplete(s.table, a.iface, gateway);
      }
    }
  }

  /** Both rules and both IPv4 routes of the slot are there, and no other route, unless other programs write to
      the table. */
  ghost predicate Healthy(nm: Naming, s: SlotState, iface: string, gateway: Option<string>) {
    s.mark4 && s.mark6 && HasBoth(s.table, iface, gateway) && (nm.ownTables ==> SlotSafe(s.table, iface))
  }

  /** The adoption's interface is down, its slot is healthy, or another program hid a wanted route in its table. */
  ghost predicate SlotDone(nm: Naming, links: map<string, Link>, k0: Kernel, k: Kernel, a: Adoption)
    requires IsSlot(a.slot)
  {
    a.iface in links && links[a.iface].bindable ==>
      || Healthy(nm, k.slots[a.slot], a.iface, links[a.iface].gateway)
      || (!nm.ownTables
          && ReplaceAll(k0.slots[a.slot].table, Replacements(SlotPolicy(a.iface, links[a.iface].gateway))) == None)
  }

  /** refresh_adoptions: every recorded adoption whose interface is bindable; a failing one does not stop the
      rest. */
  method RefreshAdoptions(m: Host)
    requires m.Valid()
    modifies m`kern, m`dead, m`trace, m`faults
    ensures m.Valid() && old(m.trace) <= m.trace
    ensures m.kern == old(m.kern).(slots := m.kern.slots) && old(m.faults) <= m.faults
    ensures SlotsStayTight(m.disk.adoptions, old(m.kern), m.kern)
    ensures m.faults == old(m.faults) ==>
              forall a | a in m.disk.adoptions :: IsSlot(a.slot) && SlotDone(m.nm, m.links, old(m.kern), m.kern, a)
  {
    var xs := m.disk.adoptions;
    ghost var k0 := m.kern;
    m.Now();
    assert forall j | 0 <= j < |xs| :: GoodAdoption(xs[j]);
    for i := 0 to |xs|
      invariant m.Valid() && old(m.trace) <= m.trace
      invariant m.kern == k0.(slots := m.kern.slots) && old(m.faults) <= m.faults
      invariant SlotsStayTight(xs, k0, m.kern)
      invariant DoneUpTo(m.nm, m.links, xs, i, k0, m.kern, m.faults == old(m.faults))
    {
      RefreshNextSlot(m, xs, i, k0, m.faults == old(m.faults));
    }
  }

  /** The first i adoptions are done (unless a command failed), the slots of the others are as they were. */
  ghost predicate DoneUpTo(nm: Naming, links: map<string, Link>, xs: seq<Adoption>, i: nat, k0: Kernel, k: Kernel,
                           clean: bool)
    requires i <= |xs|
  {
    (forall j | 0 <= j < |xs| :: IsSlot(xs[j].slot))
    && (forall j | i <= j < |xs| :: k.slots[xs[j].slot] == k0.slots[xs[j].slot])
    && (clean ==> forall j | 0 <= j < i :: SlotDone(nm, links, k0, k, xs[j]))
  }

  method RefreshNextSlot(m: Host, xs: seq<Adoption>, i: nat, ghost k0: Kernel, ghost clean: bool)
    requires m.Valid() && i < |xs| && xs == m.disk.adoptions && SlotsStayTight(xs, k0, m.kern)
    requires DoneUpTo(m.nm, m.links, xs, i, k0, m.kern, clean)
    modifies m`kern, m`dead, m`trace, m`faults
    ensures m.Valid() && old(m.trace) <= m.trace
    ensures m.kern == old(m.kern).(slots := m.kern.slots) && SlotsStayTight(xs, k0, m.kern) && old(m.faults) <= m.faults
    ensures DoneUpTo(m.nm, m.links, xs, i + 1, k0, m.kern, clean && m.faults == old(m.faults))
  {
    m.Now();
    ghost var k := m.kern;
    if xs[i].iface in m.links && m.links[xs[i].iface].bindable {
      var healthy := RefreshSlot(m, xs[i], m.links[xs[i].iface].gateway);
      OneSlotTight(xs, i, k0, k, m.kern);
    }
  }

  lemma OneSlotTight(xs: seq<Adoption>, i: nat, k0: Kernel, k: Kernel, k': Kernel)
    requires DistinctSlots(xs) && i < |xs| && SlotsStayTight(xs, k0, k)
    requires IsSlot(xs[i].slot) && OnlySlot(k, k', xs[i].slot)
    requires SlotStays(k.slots[xs[i].slot], k'.slots[xs[i].slot], xs[i].iface)
    ensures SlotsStayTight(xs, k0, k')
    ensures forall j | 0 <= j < |xs| && j != i :: IsSlot(xs[j].slot) && k'.slots[xs[j].slot] == k.slots[xs[j].slot]
  {
    forall j | 0 <= j < |xs| && j != i ensures IsSlot(xs[j].slot) && k'.slots[xs[j].slot] == k.slots[xs[j].slot] {
      assert GoodAdoption(xs[j]) && xs[j].slot != xs[i].slot;
    }
    forall a | a in xs && IsSlot(a.slot) ensures SlotStays(k0.slots[a.slot], k'.slots[a.slot], a.iface) {
      var j :| 0 <= j < |xs| && xs[j] == a;
    }
  }

  // -------------------------------------------------------------- what a pass restores

  /** The table of subnet 10.200.n.0/24 holds three routes: the default through the interface and its gateway, the
      unreachable default behind it, and the subnet itself through the veth. */
  ghost predicate ExactTable(t: Routing.Table, n: nat, iface: string, gateway: Option<string>, veth: string) {
    forall r :: r in t <==> || r == Unicast(Default, iface, gateway, 100)
                            || r == Special("unreachable", Default, 1000)
                            || r == Unicast(To(Net(0x0AC8_0000 + 256 * n, 24)), veth, None, 0)
  }

  lemma ExactTableIff(nm: Naming, t: Routing.Table, n: nat, iface: string, gateway: Option<string>)
    ensures TableOk(t, PolicyFor(nm, iface, n, gateway)) <==> ExactTable(t, n, iface, gateway, nm.veth(nm.hash(iface)))
  {
  }

  /** Both rules of the adoption's mark are there, and its table holds the default through the interface and its
      gateway, the unreachable default and nothing else. */
  ghost predicate ExactSlot(s: SlotState, iface: string, gateway: Option<string>) {
    && s.mark4 && s.mark6 && Special("unreachable", Default, 1000) in s.table
    && (exists r :: r in s.table && r.Unicast? && r.gateway == gateway)
    && forall r | r in s.table && r != Special("unreachable", Default, 1000) ::
         r.Unicast? && r.dst == Default && r.dev == iface && r.metric == 100
  }

  /** Every bindable interface with a namespace subnet has exactly its routes and, in a full pass, its NAT rules
      if its veth is there; every adoption of a bindable interface has exactly its rules and routes. */
  ghost predicate Restored(nm: Naming, r: Saved, links: map<string, Link>, k: Kernel, full: bool) {
    && (forall i | i in r.subnets && i in links && links[i].bindable ::
          && ExactTable(TableAt(k.tables, 1000 + r.subnets[i]), r.subnets[i], i, links[i].gateway, nm.veth(nm.hash(i)))
          && (full && nm.hash(i) in k.veths ==> NatOf(k.chains, i, r.subnets[i]) == (true, true, true)))
    && forall a | a in r.adoptions && a.iface in links && links[a.iface].bindable ::
         IsSlot(a.slot) && ExactSlot(k.slots[a.slot], a.iface, links[a.iface].gateway)
  }

  /** `k0`, `k1` and `k` are the kernel before and after the pass over the interfaces and after the one over the
      adoptions, neither with a failed command. */
  lemma PassRestoresAll(nm: Naming, r: Saved, links: map<string, Link>, k0: Kernel, k1: Kernel, k: Kernel, full: bool,
                        done: set<string>)
    requires nm.ownTables && OnlyRouting(k0, k1) && k == k1.(slots := k.slots)
    requires Exact(nm, r, links, k0, k1, done) && AllDone(nm, r, links, k0, k1, full, r.subnets.Keys, done)
    requires forall a | a in r.adoptions :: IsSlot(a.slot) && SlotDone(nm, links, k1, k, a)
    ensures Restored(nm, r, links, k, full)
  {
    forall i | i in r.subnets && i in links && links[i].bindable
      ensures ExactTable(TableAt(k.tables, 1000 + r.subnets[i]), r.subnets[i], i, links[i].gateway, nm.veth(nm.hash(i)))
    {
      assert i in done && NetTable(r.subnets[i]) == 1000 + r.subnets[i];
      ExactTableIff(nm, TableOf(k1, r.subnets[i]), r.subnets[i], i, links[i].gateway);
    }
    forall a | a in r.adoptions && a.iface in links && links[a.iface].bindable
      ensures ExactSlot(k.slots[a.slot], a.iface, links[a.iface].gateway)
    {
      HealthyExact(nm, k.slots[a.slot], a.iface, links[a.iface].gateway);
    }
  }

  lemma HealthyExact(nm: Naming, s: SlotState, iface: string, gateway: Option<string>)
    requires nm.ownTables && Healthy(nm, s, iface, gateway)
    ensures ExactSlot(s, iface, gateway)
  {
  }

  /** The pass over the interfaces and the one over the adoptions. Unless another program writes to the tables or
      a command failed, everything that can be is restored. */
  method RefreshAll(m: Host, full: bool)
    requires m.Valid()
    modifies m`kern, m`dead, m`trace, m`faults
    ensures m.Valid() && old(m.trace) <= m.trace && old(m.faults) <= m.faults
    ensures m.kern == old(m.kern).(tables := m.kern.tables, rules := m.kern.rules, chains := m.kern.chains,
               slots := m.kern.slots)
    ensures m.faults == old(m.faults) && m.nm.ownTables ==> Restored(m.nm, m.disk, m.links, m.kern, full)
    ensures StayTight(m.nm, m.disk, old(m.kern), m.kern) && SlotsStayTight(m.disk.adoptions, old(m.kern), m.kern)
  {
    ghost var k0 := m.kern;
    var done := RefreshRoutes(m, full);
    ghost var k1 := m.kern;
    RefreshAdoptions(m);
    if m.faults == old(m.faults) && m.nm.ownTables {
      PassRestoresAll(m.nm, m.disk, m.links, k0, k1, m.kern, full, done);
    }
  }

  // -------------------------------------------------------------- link drops and passes, in any order

  lemma DroppedStaysTight(nm: Naming, r: Saved, k: Kernel, dev: string)
    ensures StayTight(nm, r, k, Dropped(k, dev))
  {
    forall i | i in r.subnets && NoLeak(TableOf(k, r.subnets[i]), BoundOf(nm, r, i))
      ensures NoLeak(TableOf(Dropped(k, dev), r.subnets[i]), BoundOf(nm, r, i))
    {
      EventKeepsNoLeak(TableOf(k, r.subnets[i]), BoundOf(nm, r, i), LinkDown(dev));
      assert TableOf(Dropped(k, dev), r.subnets[i]) == DropDevice(TableOf(k, r.subnets[i]), dev);
    }
  }

  lemma DroppedSlotsStayTight(xs: seq<Adoption>, k: Kernel, dev: string)
    ensures SlotsStayTight(xs, k, Dropped(k, dev))
  {
    forall a | a in xs && IsSlot(a.slot)
      ensures SlotStays(k.slots[a.slot], Dropped(k, dev).slots[a.slot], a.iface)
    {
      if SlotSafe(k.slots[a.slot].table, a.iface) {
        DropKeepsSafe(k.slots[a.slot].table, a.iface, dev);
      }
    }
  }

  /** One round: a device drops, then a pass over namespaces and one over adoptions, each of which may fail or
      die anywhere. */
  method Round(m: Host, dev: string, full: bool)
    requires m.Valid()
    modifies m
    ensures m.Valid() && m.disk == old(m.disk) && old(m.trace) <= m.trace
    ensures StayTight(m.nm, m.disk, old(m.kern), m.kern) && SlotsStayTight(m.disk.adoptions, old(m.kern), m.kern)
  {
    DroppedStaysTight(m.nm, m.disk, m.kern, dev);
    DroppedSlotsStayTight(m.disk.adoptions, m.kern, dev);
    m.Settle(dev);
    RefreshAll(m, full);
  }

  /** Any number of rounds: a table that kept to its interface still does, so traffic of a namespace or an
      adoption leaves by its own interface or not at all. */
  method Rounds(m: Host, devs: seq<string>, full: bool)
    requires m.Valid()
    modifies m
    ensures m.Valid() && m.disk == old(m.disk) && old(m.trace) <= m.trace
    ensures StayTight(m.nm, m.disk, old(m.kern), m.kern) && SlotsStayTight(m.disk.adoptions, old(m.kern), m.kern)
  {
    for i := 0 to |devs|
      invariant m.Valid() && m.disk == old(m.disk) && old(m.trace) <= m.trace
      invariant StayTight(m.nm, m.disk, old(m.kern), m.kern) && SlotsStayTight(m.disk.adoptions, old(m.kern), m.kern)
    {
      Round(m, devs[i], full);
    }
  }
}
