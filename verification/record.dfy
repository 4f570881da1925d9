/** What the state file records and what the kernel holds, and when the two agree. */
module Record {
  import opened Basics
  import opened Subnets
  import opened Firewall
  import opened Routing
  import opened Adopt
  import opened Procs
  import StateFile

  /** The 8 hex digits shared by the names of a namespace and its veth pair, read as a number. */
  type Hash = nat

  /** How interface names map to suffixes, how a host veth is called, the interfaces in use, the library
      functions that read texts, and whether InterMux's route tables held only routes of its own when it began
      (the number ranges are its own, but nothing keeps other programs out). */
  datatype Naming = Naming(hash: string -> Hash, veth: Hash -> string, known: set<string>, lib: StateFile.Lib,
                           ownTables: bool)

  ghost predicate CollisionFree(nm: Naming) {
    forall i, j {:trigger nm.hash(i), nm.hash(j)} | i in nm.known && j in nm.known && nm.hash(i) == nm.hash(j) :: i == j
  }

  // -------------------------------------------------------------- the saved record (intermux/state.py)

  /** A binding; its subnet 10.200.n.0/24 is given by the index n. */
  datatype Binding = Binding(iface: string, app: string, ns: Hash, net: nat, table: nat, priority: nat,
                             separate: bool, pid: Option<Pid>)

  datatype Adoption = Adoption(id: string, iface: string, app: string, slot: nat, group: string, mark: nat,
                               table: nat, priority: nat, uid: nat)

  type Limit = StateFile.Limit

  datatype Saved = Saved(subnets: map<string, nat>, bindings: seq<Binding>, adoptions: seq<Adoption>,
                         dns: map<string, seq<string>>, limits: map<string, Limit>)

  const EMPTY := Saved(map[], [], [], map[], map[])

  /** The in-memory record an action loads, edits in place and saves. */
  class State {
    var subnets: map<string, nat>
    var bindings: seq<Binding>
    var adoptions: seq<Adoption>
    var dns: map<string, seq<string>>
    var limits: map<string, Limit>

    constructor (r: Saved)
      ensures Rec() == r
    {
      subnets, bindings, adoptions, dns, limits := r.subnets, r.bindings, r.adoptions, r.dns, r.limits;
    }

    function Rec(): Saved
      reads this
    {
      Saved(subnets, bindings, adoptions, dns, limits)
    }

    /** Subnet, DNS choice and limit of the interface go; bindings are not looked at. */
    method ForgetIface(iface: string)
      modifies this
      ensures Rec() == Forget(old(Rec()), iface)
      ensures SettingsGone(Rec(), iface) && forall i | i != iface :: SettingsSame(old(Rec()), Rec(), i)
      ensures bindings == old(bindings) && adoptions == old(adoptions)
    {
      subnets := subnets - {iface};
      dns := dns - {iface};
      limits := limits - {iface};
    }

    method DropBindings(keep: Binding -> bool)
      modifies this`bindings
      ensures bindings == Filter(old(bindings), keep)
    {
      bindings := Filter(bindings, keep);
    }
  }

  function Forget(r: Saved, iface: string): Saved {
    r.(subnets := r.subnets - {iface}, dns := r.dns - {iface}, limits := r.limits - {iface})
  }

  function NetTable(n: nat): nat { TABLE_BASE + n }
  function NetPriority(n: nat): nat { PRIORITY_BASE + n }

  /** Namespace, subnet, table and priority are the ones derived from the interface's record. */
  ghost predicate Derived(nm: Naming, r: Saved, b: Binding) {
    b.iface in r.subnets && b.net == r.subnets[b.iface] && b.ns == nm.hash(b.iface)
    && b.table == NetTable(b.net) && b.priority == NetPriority(b.net)
  }

  ghost predicate DistinctSubnets(subnets: map<string, nat>) {
    (forall i | i in subnets :: 1 <= subnets[i] <= 254)
    && forall i, j {:trigger subnets[i], subnets[j]}
         | i in subnets && j in subnets && subnets[i] == subnets[j] :: i == j
  }

  ghost predicate DistinctApps(bs: seq<Binding>) {
    forall k, l | 0 <= k < l < |bs| :: !(bs[k].iface == bs[l].iface && bs[k].app == bs[l].app)
  }

  ghost predicate GoodAdoption(a: Adoption) {
    IsSlot(a.slot) && a.group == Group(a.id) && a.mark == Mark(a.slot) && a.table == SlotTable(a.slot)
    && a.priority == SlotPriority(a.slot)
  }

  ghost predicate DistinctSlots(xs: seq<Adoption>) {
    (forall k | 0 <= k < |xs| :: GoodAdoption(xs[k]))
    && forall k, l | 0 <= k < l < |xs| :: xs[k].slot != xs[l].slot && xs[k].id != xs[l].id
  }

  /** The record invariant. */
  ghost predicate Good(nm: Naming, r: Saved) {
    r.subnets.Keys <= nm.known
    && DistinctSubnets(r.subnets)
    && (forall b | b in r.bindings :: Derived(nm, r, b))
    && DistinctApps(r.bindings)
    && r.dns.Keys <= r.subnets.Keys && r.limits.Keys <= r.subnets.Keys
    && DistinctSlots(r.adoptions)
  }

  /** The recorded values are within what the request checks let through, so that loading accepts them. */
  ghost predicate Stored(nm: Naming, r: Saved) {
    && (forall b | b in r.bindings :: b.app != "" && (b.pid.Some? ==> b.pid.value > 1))
    && (forall a | a in r.adoptions :: StateFile.AdoptionId(a.id) && a.iface in nm.known && a.app != "")
    && (forall i | i in r.dns :: StateFile.ValidServers(nm.lib, r.dns[i]))
    && (forall i | i in r.limits :: StateFile.ValidLimit(r.limits[i]))
  }

  /** Subnet, DNS choice and limit of the interface are the same, present or absent. */
  ghost predicate SettingsSame(r0: Saved, r1: Saved, i: string) {
    && (i in r1.subnets <==> i in r0.subnets) && (i in r0.subnets ==> r1.subnets[i] == r0.subnets[i])
    && (i in r1.dns <==> i in r0.dns) && (i in r0.dns ==> r1.dns[i] == r0.dns[i])
    && (i in r1.limits <==> i in r0.limits) && (i in r0.limits ==> r1.limits[i] == r0.limits[i])
  }

  ghost predicate SettingsGone(r: Saved, i: string) { i !in r.subnets && i !in r.dns && i !in r.limits }

  /** Two interfaces of a good record never share a subnet, namespace, table or rule priority. */
  lemma InterfacesApart(nm: Naming, r: Saved, b: Binding, c: Binding)
    requires CollisionFree(nm) && Good(nm, r) && b in r.bindings && c in r.bindings && b.iface != c.iface
    ensures b.net != c.net && b.ns != c.ns && b.table != c.table && b.priority != c.priority
    ensures !ShareAddress(PoolNet(b.net), PoolNet(c.net))
    ensures forall a | a in r.adoptions :: a.table != b.table && a.priority != b.priority
  {
  }

  /** Two adoptions of a good record never share a slot, mark, table or rule priority, and none of them has the
      table or priority of a namespace. */
  lemma AdoptionsApart(nm: Naming, r: Saved, k: nat, l: nat)
    requires Good(nm, r) && k < l < |r.adoptions|
    ensures var a, b := r.adoptions[k], r.adoptions[l];
            a.slot != b.slot && a.mark != b.mark && a.table != b.table && a.priority != b.priority
            && forall c | c in r.bindings ::
                 a.table != c.table && a.priority != c.priority && b.table != c.table && b.priority != c.priority
  {
  }

  // -------------------------------------------------------------- the kernel

  /** The parameters of a loaded `table inet intermux_adopt<slot>`; Adopt.Script gives the table. */
  datatype Marking = Marking(group: string, iface: string)

  /** An ip rule `from net lookup table priority p`. */
  datatype FromRule = FromRule(net: Net, table: nat, priority: nat)

  function OwnRule(n: nat): FromRule { FromRule(PoolNet(n), NetTable(n), NetPriority(n)) }

  /** What the kernel holds for an adoption slot: its fwmark rules (IPv4, IPv6), its IPv4 route table, the
      unreachable default of its IPv6 table, and its nft table. */
  datatype SlotState = SlotState(mark4: bool, mark6: bool, table: Table, hole6: bool, nft: Option<Marking>)

  const NO_SLOT := SlotState(false, false, [], false, None)

  /** The slots by number (SLOT_MIN..SLOT_MAX; position 0 stands for none). */
  type Slots = s: seq<SlotState> | |s| == 201 witness seq(201, i => NO_SLOT)

  /** Kernel objects: namespaces and host veths by suffix, from-rules, the IPv4 route tables of namespaces,
      iptables chains, adoption slots and the members of each cgroup. */
  datatype Kernel = Kernel(namespaces: set<Hash>, veths: set<Hash>, rules: set<FromRule>, tables: map<nat, Table>,
                           chains: Chains, slots: Slots, groups: map<string, set<Pid>>)

  /** One moment of a host. `lost` counts the removals that failed while the program went on regardless, since
      record and kernel last agreed. */
  datatype World = World(disk: Saved, kern: Kernel, lost: nat)

  /** No table holds a route twice, and no two slots mark the same group. */
  ghost predicate KernelSane(k: Kernel) {
    && (forall n | n in k.tables :: NoDup(k.tables[n])) && (forall s: nat | IsSlot(s) :: NoDup(k.slots[s].table))
    && (forall s: nat, t: nat {:trigger k.slots[s].nft, k.slots[t].nft} | IsSlot(s) && IsSlot(t) && s != t ::
          k.slots[s].nft.Some? && k.slots[t].nft.Some? ==> k.slots[s].nft.value.group != k.slots[t].nft.value.group)
  }

  /** The tables of namespaces and slots hold only routes InterMux writes. */
  ghost predicate Shaped(k: Kernel) {
    && (forall n: nat | 1 <= n <= 254 :: Shape(TableAt(k.tables, NetTable(n)), Some(PoolNet(n))))
    && (forall s: nat | IsSlot(s) :: Shape(k.slots[s].table, None))
  }

  /** No other slot marks this group. */
  ghost predicate GroupFree(k: Kernel, slot: nat, group: string) {
    forall s: nat | IsSlot(s) && s != slot && k.slots[s].nft.Some? :: k.slots[s].nft.value.group != group
  }

  /** Suffixes of the recorded interfaces. */
  ghost function Names(nm: Naming, r: Saved): set<Hash> { set i | i in r.subnets :: nm.hash(i) }

  ghost predicate Recorded(r: Saved, iface: string, n: nat) { iface in r.subnets && r.subnets[iface] == n }

  ghost predicate RulesCovered(r: Saved, rules: set<FromRule>) {
    forall n: nat | 1 <= n <= 254 && OwnRule(n) in rules :: n in r.subnets.Values
  }

  ghost predicate ChainsCovered(r: Saved, cs: Chains) {
    && (forall n: nat, i: string | 1 <= n <= 254 && Masquerade(PoolNet(n), i) in cs.post :: Recorded(r, i, n))
    && (forall n: nat | 1 <= n <= 254 && AcceptOut(PoolNet(n)) in cs.fwd :: n in r.subnets.Values)
    && (forall n: nat | 1 <= n <= 254 && AcceptBack(PoolNet(n)) in cs.fwd :: n in r.subnets.Values)
  }

  /** No InterMux rule stands twice in its chain. */
  ghost predicate ChainsOnce(cs: Chains) {
    && (forall n: nat, i: string | 1 <= n <= 254 :: Once(cs.post, Masquerade(PoolNet(n), i)))
    && (forall n: nat | 1 <= n <= 254 :: Once(cs.fwd, AcceptOut(PoolNet(n))))
    && (forall n: nat | 1 <= n <= 254 :: Once(cs.fwd, AcceptBack(PoolNet(n))))
  }

  /** Record coverage: every InterMux namespace, veth, from-rule and NAT rule belongs to a recorded interface. */
  ghost predicate Covered(nm: Naming, r: Saved, k: Kernel) {
    k.namespaces <= Names(nm, r) && k.veths <= Names(nm, r) && RulesCovered(r, k.rules) && ChainsCovered(r, k.chains)
  }

  /** What holds at every step. */
  ghost predicate Inv(nm: Naming, w: World) {
    Good(nm, w.disk) && Stored(nm, w.disk) && KernelSane(w.kern) && ChainsOnce(w.kern.chains)
    && (nm.ownTables ==> Shaped(w.kern))
    && (w.lost == 0 ==> Covered(nm, w.disk, w.kern))
  }

  /** A kernel without anything of InterMux. */
  const BARE := Kernel({}, {}, {}, map[], Chains([], []), seq(201, i => NO_SLOT), map[])

  /** Where InterMux has never run the invariant holds, with tables of its own. */
  lemma NewHost(nm: Naming)
    ensures Inv(nm, World(EMPTY, BARE, 0))
  {
    assert forall s: nat | IsSlot(s) :: BARE.slots[s] == NO_SLOT;
  }

  // -------------------------------------------------------------- plumbing of one interface

  /** Which removals of a teardown took effect. */
  datatype Cuts = Cuts(masq: bool, out: bool, back: bool, rule: bool, table: bool, veth: bool, ns: bool)

  const ALL_CUTS := Cuts(true, true, true, true, true, true, true)
  const NO_CUTS := Cuts(false, false, false, false, false, false, false)

  function CutChains(cs: Chains, iface: string, n: nat, c: Cuts): Chains {
    var post := if c.masq then DeleteFirst(cs.post, Masquerade(PoolNet(n), iface)) else cs.post;
    var fwd1 := if c.out then DeleteFirst(cs.fwd, AcceptOut(PoolNet(n))) else cs.fwd;
    var fwd2 := if c.back then DeleteFirst(fwd1, AcceptBack(PoolNet(n))) else fwd1;
    Chains(post, fwd2)
  }

  /** The kernel after removing (the cut parts of) the plumbing of one interface. */
  function Unplumb(k: Kernel, iface: string, n: nat, h: Hash, c: Cuts): Kernel {
    k.(chains := CutChains(k.chains, iface, n, c),
       rules := if c.rule then k.rules - {OwnRule(n)} else k.rules,
       tables := if c.table then k.tables - {NetTable(n)} else k.tables,
       veths := if c.veth then k.veths - {h} else k.veths,
       namespaces := if c.ns then k.namespaces - {h} else k.namespaces)
  }

  /** One more removal, from what the others left. */
  lemma OneMoreCut(k: Kernel, iface: string, n: nat, h: Hash, c: Cuts)
    ensures var u := Unplumb(k, iface, n, h, c);
            && (!c.rule ==> Unplumb(k, iface, n, h, c.(rule := true)) == u.(rules := u.rules - {OwnRule(n)}))
            && (!c.table ==> Unplumb(k, iface, n, h, c.(table := true)) == u.(tables := u.tables - {NetTable(n)}))
            && (!c.veth ==> Unplumb(k, iface, n, h, c.(veth := true)) == u.(veths := u.veths - {h}))
            && (!c.ns ==> Unplumb(k, iface, n, h, c.(ns := true)) == u.(namespaces := u.namespaces - {h}))
  {
  }

  /** Which of an interface's three rules the chains hold: masquerade, forward out, forward back. */
  function NatOf(cs: Chains, iface: string, n: nat): (bool, bool, bool) {
    (Masquerade(PoolNet(n), iface) in cs.post, AcceptOut(PoolNet(n)) in cs.fwd, AcceptBack(PoolNet(n)) in cs.fwd)
  }

  /** What the kernel holds for one interface. */
  datatype Plumbing = Plumbing(ns: bool, veth: bool, rule: bool, table: Table, nat3: (bool, bool, bool))

  function PlumbingOf(k: Kernel, iface: string, n: nat, h: Hash): Plumbing {
    Plumbing(h in k.namespaces, h in k.veths, OwnRule(n) in k.rules, TableAt(k.tables, NetTable(n)),
             NatOf(k.chains, iface, n))
  }

  const NO_PLUMBING := Plumbing(false, false, false, [], (false, false, false))

  lemma SpecsOfOthers(m: nat, i: string, n: nat, j: string)
    ensures Masquerade(PoolNet(m), i) == Masquerade(PoolNet(n), j) <==> m == n && i == j
    ensures AcceptOut(PoolNet(m)) == AcceptOut(PoolNet(n)) <==> m == n
    ensures AcceptBack(PoolNet(m)) == AcceptBack(PoolNet(n)) <==> m == n
    ensures AcceptOut(PoolNet(m)) != AcceptBack(PoolNet(n))
  {
  }

  /** Tearing down one interface leaves the plumbing of every other one as it is. */
  lemma UnplumbSparesOthers(k: Kernel, iface: string, n: nat, h: Hash, c: Cuts, j: string, m: nat, g: Hash)
    requires iface != j && n != m && h != g
    ensures PlumbingOf(Unplumb(k, iface, n, h, c), j, m, g) == PlumbingOf(k, j, m, g)
  {
  }

  /** Every other interface's plumbing is the same. */
  ghost predicate Spared(k: Kernel, k': Kernel, iface: string, n: nat, h: Hash) {
    forall j, m, g | j != iface && m != n && g != h :: PlumbingOf(k', j, m, g) == PlumbingOf(k, j, m, g)
  }

  lemma UnplumbSpares(k: Kernel, iface: string, n: nat, h: Hash, c: Cuts)
    ensures Spared(k, Unplumb(k, iface, n, h, c), iface, n, h)
  {
    forall j, m, g | j != iface && m != n && g != h
      ensures PlumbingOf(Unplumb(k, iface, n, h, c), j, m, g) == PlumbingOf(k, j, m, g)
    {
      UnplumbSparesOthers(k, iface, n, h, c, j, m, g);
    }
  }

  /** Other interfaces are spared when only this one's objects differ. */
  lemma SparedByParts(k: Kernel, k': Kernel, iface: string, n: nat, h: Hash)
    requires k'.namespaces - {h} == k.namespaces - {h} && k'.veths - {h} == k.veths - {h}
    requires k'.rules - {OwnRule(n)} == k.rules - {OwnRule(n)}
    requires forall m | m != NetTable(n) :: TableAt(k'.tables, m) == TableAt(k.tables, m)
    requires forall j, m | m != n :: NatOf(k'.chains, j, m) == NatOf(k.chains, j, m)
    ensures Spared(k, k', iface, n, h)
  {
    forall j, m, g | j != iface && m != n && g != h ensures PlumbingOf(k', j, m, g) == PlumbingOf(k, j, m, g) {
      assert g in k'.namespaces <==> g in k'.namespaces - {h};
      assert g in k.namespaces <==> g in k.namespaces - {h};
      assert g in k'.veths <==> g in k'.veths - {h};
      assert g in k.veths <==> g in k.veths - {h};
      assert OwnRule(m) in k'.rules <==> OwnRule(m) in k'.rules - {OwnRule(n)};
      assert OwnRule(m) in k.rules <==> OwnRule(m) in k.rules - {OwnRule(n)};
    }
  }

  lemma CutSubset(cs: Chains, iface: string, n: nat, c: Cuts)
    ensures forall x | x in CutChains(cs, iface, n, c).post :: x in cs.post
    ensures forall x | x in CutChains(cs, iface, n, c).fwd :: x in cs.fwd
  {
  }

  lemma CutKeepsOnce(cs: Chains, iface: string, n: nat, c: Cuts)
    requires ChainsOnce(cs)
    ensures ChainsOnce(CutChains(cs, iface, n, c))
  {
    var masq, out, back := Masquerade(PoolNet(n), iface), AcceptOut(PoolNet(n)), AcceptBack(PoolNet(n));
    var fwd1 := if c.out then DeleteFirst(cs.fwd, out) else cs.fwd;
    forall m: nat, i: string | 1 <= m <= 254 ensures Once(CutChains(cs, iface, n, c).post, Masquerade(PoolNet(m), i)) {
      DeleteKeepsOnce(cs.post, masq, Masquerade(PoolNet(m), i));
    }
    forall m: nat | 1 <= m <= 254
      ensures Once(CutChains(cs, iface, n, c).fwd, AcceptOut(PoolNet(m)))
      ensures Once(CutChains(cs, iface, n, c).fwd, AcceptBack(PoolNet(m)))
    {
      DeleteKeepsOnce(cs.fwd, out, AcceptOut(PoolNet(m)));
      DeleteKeepsOnce(cs.fwd, out, AcceptBack(PoolNet(m)));
      DeleteKeepsOnce(fwd1, back, AcceptOut(PoolNet(m)));
      DeleteKeepsOnce(fwd1, back, AcceptBack(PoolNet(m)));
    }
  }

  /** Removing plumbing while the record still stands breaks nothing. */
  lemma UnplumbKeepsInv(nm: Naming, r: Saved, k: Kernel, iface: string, n: nat, h: Hash, c: Cuts, lost: nat)
    requires Inv(nm, World(r, k, lost))
    ensures Inv(nm, World(r, Unplumb(k, iface, n, h, c), lost))
  {
    CutSubset(k.chains, iface, n, c);
    CutKeepsOnce(k.chains, iface, n, c);
  }

  /** A complete teardown leaves nothing of the interface, so its record can go. */
  lemma UnplumbedIsGone(k: Kernel, iface: string, n: nat, h: Hash)
    requires ChainsOnce(k.chains) && 1 <= n <= 254
    ensures PlumbingOf(Unplumb(k, iface, n, h, ALL_CUTS), iface, n, h) == NO_PLUMBING
  {
    var masq, out, back := Masquerade(PoolNet(n), iface), AcceptOut(PoolNet(n)), AcceptBack(PoolNet(n));
    OnceDeleted(k.chains.post, masq);
    OnceDeleted(k.chains.fwd, out);
    DeleteKeepsOnce(k.chains.fwd, out, back);
    OnceDeleted(DeleteFirst(k.chains.fwd, out), back);
  }

  lemma ForgetKeepsCovered(nm: Naming, r: Saved, k: Kernel, iface: string)
    requires CollisionFree(nm) && r.subnets.Keys <= nm.known && DistinctSubnets(r.subnets) && iface in r.subnets
    requires Covered(nm, r, k)
    requires PlumbingOf(k, iface, r.subnets[iface], nm.hash(iface)) == NO_PLUMBING
    ensures Covered(nm, Forget(r, iface), k)
  {
    var n, f := r.subnets[iface], Forget(r, iface);
    forall h | h in Names(nm, r) && h != nm.hash(iface) ensures h in Names(nm, f) {
      var i :| i in r.subnets && nm.hash(i) == h;
      assert i in f.subnets;
    }
    forall m: nat | m in r.subnets.Values && m != n ensures m in f.subnets.Values {
      var i :| i in r.subnets && r.subnets[i] == m;
      assert i in f.subnets && f.subnets[i] == m;
    }
  }

  lemma ForgetKeepsGood(nm: Naming, r: Saved, iface: string)
    requires Good(nm, r) && forall b | b in r.bindings :: b.iface != iface
    ensures Good(nm, Forget(r, iface))
  {
  }

  // -------------------------------------------------------------- tearing several interfaces down

  function Without(r: Saved, gone: set<string>): Saved {
    r.(subnets := r.subnets - gone, dns := r.dns - gone, limits := r.limits - gone)
  }

  /** The recorded interfaces outside `gone` have the plumbing they had. */
  ghost predicate KeptPlumbing(nm: Naming, r: Saved, k0: Kernel, k: Kernel, gone: set<string>) {
    forall i | i in r.subnets && i !in gone ::
      PlumbingOf(k, i, r.subnets[i], nm.hash(i)) == PlumbingOf(k0, i, r.subnets[i], nm.hash(i))
  }

  /** Nothing is left of the interfaces in `gone`. */
  ghost predicate Unplumbed(nm: Naming, r: Saved, k: Kernel, gone: set<string>) {
    forall i | i in r.subnets && i in gone :: PlumbingOf(k, i, r.subnets[i], nm.hash(i)) == NO_PLUMBING
  }

  /** What happens to one interface's objects, the other recorded ones do not notice. */
  lemma SparedKeeps(nm: Naming, r: Saved, k: Kernel, k': Kernel, iface: string)
    requires CollisionFree(nm) && Good(nm, r) && iface in r.subnets
    requires Spared(k, k', iface, r.subnets[iface], nm.hash(iface))
    ensures KeptPlumbing(nm, r, k, k', {iface})
  {
  }

  ghost predicate Shrunk(k0: Kernel, k: Kernel) {
    k.namespaces <= k0.namespaces && k.veths <= k0.veths && k.rules <= k0.rules
    && k.slots == k0.slots && k.groups == k0.groups
    && (forall x | x in k.chains.post :: x in k0.chains.post) && (forall x | x in k.chains.fwd :: x in k0.chains.fwd)
  }

  /** Between k0 and k exactly the interfaces in `gone` were torn down; completely, unless `lost`. */
  ghost predicate Swept(nm: Naming, r: Saved, k0: Kernel, k: Kernel, gone: set<string>, lost: bool) {
    Shrunk(k0, k) && KeptPlumbing(nm, r, k0, k, gone)
    && k0.namespaces <= k.namespaces + (set i | i in gone :: nm.hash(i)) && (gone == {} ==> k == k0)
    && (!lost ==> Unplumbed(nm, r, k, gone))
  }

  lemma WithoutNothing(r: Saved)
    ensures Without(r, {}) == r
  {
  }

  lemma WithoutOneMore(r: Saved, gone: set<string>, iface: string)
    ensures Forget(Without(r, gone), iface) == Without(r, gone + {iface})
  {
  }

  lemma OthersApart(nm: Naming, r: Saved, iface: string)
    requires CollisionFree(nm) && Good(nm, r) && iface in r.subnets
    ensures forall i | i in r.subnets && i != iface :: r.subnets[i] != r.subnets[iface] && nm.hash(i) != nm.hash(iface)
  {
  }

  /** The teardown of one more interface, complete or not, keeps the others as they are. */
  lemma SweptNext(nm: Naming, r: Saved, k0: Kernel, k: Kernel, gone: set<string>, iface: string, cuts: Cuts, lost: bool,
                  lost': bool)
    requires CollisionFree(nm) && Good(nm, r) && iface in r.subnets && ChainsOnce(k.chains)
    requires Swept(nm, r, k0, k, gone, lost) && (lost ==> lost') && (!lost' ==> cuts == ALL_CUTS)
    ensures Swept(nm, r, k0, Unplumb(k, iface, r.subnets[iface], nm.hash(iface), cuts), gone + {iface}, lost')
  {
    CutSubset(k.chains, iface, r.subnets[iface], cuts);
    var k' := Unplumb(k, iface, r.subnets[iface], nm.hash(iface), cuts);
    assert Shrunk(k0, k');
    PlumbingNext(nm, r, k0, k, gone, iface, cuts);
    if !lost' {
      UnplumbedNext(nm, r, k, gone, iface);
    }
  }

  lemma PlumbingNext(nm: Naming, r: Saved, k0: Kernel, k: Kernel, gone: set<string>, iface: string, cuts: Cuts)
    requires CollisionFree(nm) && Good(nm, r) && iface in r.subnets && KeptPlumbing(nm, r, k0, k, gone)
    ensures KeptPlumbing(nm, r, k0, Unplumb(k, iface, r.subnets[iface], nm.hash(iface), cuts), gone + {iface})
  {
    OthersApart(nm, r, iface);
    UnplumbSpares(k, iface, r.subnets[iface], nm.hash(iface), cuts);
  }

  lemma UnplumbedNext(nm: Naming, r: Saved, k: Kernel, gone: set<string>, iface: string)
    requires CollisionFree(nm) && Good(nm, r) && iface in r.subnets && ChainsOnce(k.chains)
    requires Unplumbed(nm, r, k, gone)
    ensures Unplumbed(nm, r, Unplumb(k, iface, r.subnets[iface], nm.hash(iface), ALL_CUTS), gone + {iface})
  {
    OthersApart(nm, r, iface);
    UnplumbSpares(k, iface, r.subnets[iface], nm.hash(iface), ALL_CUTS);
    UnplumbedIsGone(k, iface, r.subnets[iface], nm.hash(iface));
  }

  /** When everything in `gone` is torn down completely, its records can go. */
  lemma SweptCovered(nm: Naming, r: Saved, k0: Kernel, k: Kernel, gone: set<string>)
    requires Covered(nm, r, k0) && Swept(nm, r, k0, k, gone, false)
    ensures Covered(nm, Without(r, gone), k)
  {
    var r' := Without(r, gone);
    forall h | h in k.namespaces || h in k.veths ensures h in Names(nm, r') {
      var i :| i in r.subnets && nm.hash(i) == h;
      NotGone(nm, r, k, gone, i);
    }
    forall n: nat | 1 <= n <= 254 && (OwnRule(n) in k.rules || AcceptOut(PoolNet(n)) in k.chains.fwd
                                      || AcceptBack(PoolNet(n)) in k.chains.fwd)
      ensures n in r'.subnets.Values
    {
      assert n in r.subnets.Values;
      var i :| i in r.subnets && r.subnets[i] == n;
      NotGone(nm, r, k, gone, i);
      assert r'.subnets[i] == n;
    }
    forall n: nat, i: string | 1 <= n <= 254 && Masquerade(PoolNet(n), i) in k.chains.post ensures Recorded(r', i, n) {
      NotGone(nm, r, k, gone, i);
    }
  }

  /** An interface that still has some plumbing is not among the ones torn down. */
  lemma NotGone(nm: Naming, r: Saved, k: Kernel, gone: set<string>, i: string)
    requires i in r.subnets && Unplumbed(nm, r, k, gone)
    requires var n := r.subnets[i];
             nm.hash(i) in k.namespaces || nm.hash(i) in k.veths || OwnRule(n) in k.rules
             || AcceptOut(PoolNet(n)) in k.chains.fwd || AcceptBack(PoolNet(n)) in k.chains.fwd
             || Masquerade(PoolNet(n), i) in k.chains.post
    ensures i !in gone && i in Without(r, gone).subnets
  {
  }

  /** Once an interface is torn down completely, its record can go. */
  lemma TornIsForgotten(nm: Naming, r: Saved, k: Kernel, iface: string)
    requires CollisionFree(nm) && Good(nm, r) && ChainsOnce(k.chains) && iface in r.subnets
    ensures var k' := Unplumb(k, iface, r.subnets[iface], nm.hash(iface), ALL_CUTS);
            PlumbingOf(k', iface, r.subnets[iface], nm.hash(iface)) == NO_PLUMBING
            && (Covered(nm, r, k) ==> Covered(nm, Forget(r, iface), k'))
  {
    var n, h := r.subnets[iface], nm.hash(iface);
    UnplumbedIsGone(k, iface, n, h);
    if Covered(nm, r, k) {
      CutSubset(k.chains, iface, n, ALL_CUTS);
      ForgetKeepsCovered(nm, r, Unplumb(k, iface, n, h, ALL_CUTS), iface);
    }
  }

  // -------------------------------------------------------------- adoptions in the kernel

  /** The slot's nft table, when loaded, marks packets for an existing fwmark rule and both IPv4 routes. */
  ghost predicate Armed(k: Kernel, slot: nat)
    requires IsSlot(slot)
  {
    k.slots[slot].nft.Some? ==> k.slots[slot].mark4 && SlotComplete(k.slots[slot].table)
  }

  /** Nothing differs but slots and groups. */
  ghost predicate OnlyAdoption(k: Kernel, k': Kernel) { k' == k.(slots := k'.slots, groups := k'.groups) }

  /** Nothing differs but one slot and the groups. */
  ghost predicate OnlySlot(k: Kernel, k': Kernel, slot: nat)
    requires IsSlot(slot)
  {
    k' == k.(slots := k.slots[slot := k'.slots[slot]], groups := k'.groups)
  }

  /** Nothing differs but the routes of one slot. */
  ghost predicate OnlySlotTable(k: Kernel, k': Kernel, slot: nat)
    requires IsSlot(slot)
  {
    k' == k.(slots := k.slots[slot := k.slots[slot].(table := k'.slots[slot].table)])
  }

  lemma AdoptionKeepsInv(nm: Naming, r: Saved, k: Kernel, k': Kernel, lost: nat)
    requires Inv(nm, World(r, k, lost)) && OnlyAdoption(k, k') && KernelSane(k')
    requires nm.ownTables ==> Shaped(k')
    ensures Inv(nm, World(r, k', lost))
  {
  }

  function Members(k: Kernel, group: string): set<Pid> { if group in k.groups then k.groups[group] else {} }

  /** Writing a pid to a group's cgroup.procs takes it out of every other group. */
  function MoveIn(groups: map<string, set<Pid>>, group: string, pid: Pid): map<string, set<Pid>> {
    map g | g in groups :: if g == group then groups[g] + {pid} else groups[g] - {pid}
  }

  /** Writing a pid to the root group. */
  function MoveOut(groups: map<string, set<Pid>>, pid: Pid): map<string, set<Pid>> {
    map g | g in groups :: groups[g] - {pid}
  }
}
