/** What the rules and tables of a host do to the packets of its adopted applications
    (intermux/system/adopt.py, nft_script, rule_args and route_args). */
module Marks {
  import opened Basics
  import opened Subnets
  import opened Procs
  import opened Record
  import opened Adopt
  import opened Machine
  import opened Adoptions
  import opened Refresh
  import Routing
  import StateFile

  // -------------------------------------------------------------- `ip rule` of the host

  /** The from-rules of the first n namespace subnets, by priority. */
  function FromRules(k: Kernel, n: nat): seq<IpRule> {
    if n == 0 then []
    else FromRules(k, n - 1) + if OwnRule(n) in k.rules then [FromNet(PoolNet(n), NetTable(n), NetPriority(n))] else []
  }

  function MarkRule(s: nat): IpRule { FwMark(Mark(s), SlotTable(s), SlotPriority(s)) }

  /** The fwmark rules of the first n slots, by priority. */
  function MarkRules(k: Kernel, n: nat): seq<IpRule>
    requires n <= SLOT_MAX
  {
    if n == 0 then [] else MarkRules(k, n - 1) + if k.slots[n].mark4 then [MarkRule(n)] else []
  }

  /** All IPv4 rules in the order they are consulted: the local table, the namespaces, the slots, and whatever
      else the host has, behind them. */
  function IpRules(k: Kernel, later: seq<IpRule>): seq<IpRule> {
    [AnyPacket(LOCAL_TABLE, 0)] + FromRules(k, 254) + MarkRules(k, SLOT_MAX) + later
  }

  ghost predicate InOrder(rules: seq<IpRule>) {
    forall i, j | 0 <= i < j < |rules| :: rules[i].priority < rules[j].priority
  }

  lemma {:induction false} FromRulesAre(k: Kernel, n: nat)
    requires n <= 254
    ensures InOrder(FromRules(k, n))
    ensures forall r | r in FromRules(k, n) ::
              r.FromNet? && r.net.len <= 32 && IsPoolSubnet(r.net) && NetPriority(0) < r.priority <= NetPriority(n)
  {
    if n > 0 {
      FromRulesAre(k, n - 1);
      IndexRoundTrip(n);
      IndexOfInverse(PoolNet(n));
    }
  }

  lemma {:induction false} MarkRulesAre(k: Kernel, n: nat)
    requires n <= SLOT_MAX
    ensures InOrder(MarkRules(k, n))
    ensures forall r | r in MarkRules(k, n) ::
              r.FwMark? && Mark(0) < r.mark <= Mark(n) && SlotPriority(0) < r.priority <= SlotPriority(n)
  {
    if n > 0 {
      MarkRulesAre(k, n - 1);
    }
  }

  /** The list is the one `ip rule` goes through: by priority, given that the rest of the host keeps above the
      slots. */
  lemma RulesInOrder(k: Kernel, later: seq<IpRule>)
    requires InOrder(later) && forall r | r in later :: r.priority > SlotPriority(SLOT_MAX)
    ensures InOrder(IpRules(k, later))
  {
    FromRulesAre(k, 254);
    MarkRulesAre(k, SLOT_MAX);
    Behind([AnyPacket(LOCAL_TABLE, 0)], FromRules(k, 254), 0);
    Behind([AnyPacket(LOCAL_TABLE, 0)] + FromRules(k, 254), MarkRules(k, SLOT_MAX), SlotPriority(0));
    Behind([AnyPacket(LOCAL_TABLE, 0)] + FromRules(k, 254) + MarkRules(k, SLOT_MAX), later, SlotPriority(SLOT_MAX));
  }

  lemma Behind(a: seq<IpRule>, b: seq<IpRule>, top: nat)
    requires InOrder(a) && InOrder(b)
    requires (forall r | r in a :: r.priority <= top) && (forall r | r in b :: r.priority > top)
    ensures InOrder(a + b)
  {
  }

  lemma {:induction false} MarkRulesPrefix(k: Kernel, a: nat, n: nat)
    requires a <= n <= SLOT_MAX
    ensures MarkRules(k, a) <= MarkRules(k, n)
    decreases n
  {
    if a < n {
      MarkRulesPrefix(k, a, n - 1);
    }
  }

  /** Where the rule of a slot stands. */
  function RuleAt(k: Kernel, slot: nat): nat
    requires IsSlot(slot)
  {
    1 + |FromRules(k, 254)| + |MarkRules(k, slot - 1)|
  }

  lemma SlotRuleStands(k: Kernel, slot: nat, later: seq<IpRule>)
    requires IsSlot(slot) && k.slots[slot].mark4
    ensures var rules := IpRules(k, later);
            RuleAt(k, slot) < |rules| && rules[RuleAt(k, slot)] == MarkRule(slot)
            && RulesBefore(rules, RuleAt(k, slot), slot)
  {
    var rules, at := IpRules(k, later), RuleAt(k, slot);
    var front := [AnyPacket(LOCAL_TABLE, 0)] + FromRules(k, 254);
    MarkRulesPrefix(k, slot, SLOT_MAX);
    FromRulesAre(k, 254);
    MarkRulesAre(k, slot - 1);
    var before := front + MarkRules(k, slot - 1);
    assert before + [MarkRule(slot)] == front + MarkRules(k, slot);
    assert front + MarkRules(k, slot) <= rules;
    assert rules[..at] == before;
    forall i | 0 <= i < at ensures rules[i] == before[i] && before[i] in before {
    }
  }

  // -------------------------------------------------------------- the other parts of a host

  /** The loaded marking tables, each once, in any order. */
  ghost predicate Loads(k: Kernel, live: seq<Adopted>) {
    SlotsDiffer(live)
    && (forall a | a in live :: k.slots[a.slot].nft == Some(Marking(a.group, a.iface)))
    && forall s: nat | IsSlot(s) && k.slots[s].nft.Some? :: exists a :: a in live && a.slot == s
  }

  /** The IPv4 route tables: those of the slots, of the namespaces and of the rest of the host. */
  function RouteTables(k: Kernel, host: map<nat, Routing.Table>): map<nat, Routing.Table> {
    host + k.tables + map s: nat | 1 <= s <= 200 :: SlotTable(s) := k.slots[s].table
  }

  lemma LoadedGroupsDiffer(k: Kernel, live: seq<Adopted>)
    requires KernelSane(k) && Loads(k, live)
    ensures GroupsDiffer(live)
  {
    forall i, j | 0 <= i < j < |live| ensures live[i].group != live[j].group {
      assert live[i] in live && live[j] in live && live[i].slot != live[j].slot;
    }
  }

  /** A packet the adoption is about: of its group, unmarked, not from a namespace subnet, not to a local
      address. */
  ghost predicate Concerned(k: Kernel, host: map<nat, Routing.Table>, a: Adoption, p: Packet) {
    p.group == Some(a.group) && p.mark == 0 && !FromPool(p.src)
    && Routing.ExitOf(Adopt.TableAt(RouteTables(k, host), LOCAL_TABLE), p.dst) == Routing.FallThrough
  }

  ghost predicate PacketTreated(k: Kernel, live: seq<Adopted>, host: map<nat, Routing.Table>, later: seq<IpRule>,
                                a: Adoption, p: Packet) {
    Treated(live, Adopted(a.slot, a.group, a.iface), IpRules(k, later), RouteTables(k, host), p)
  }

  /** Whatever order the tables were loaded in and whatever else the host routes, every packet the adoption is
      about is treated as adopted. */
  ghost predicate Adopts(k: Kernel, a: Adoption) {
    forall live: seq<Adopted>, host: map<nat, Routing.Table>, later: seq<IpRule>, p: Packet
      | Loads(k, live) && Concerned(k, host, a, p) :: PacketTreated(k, live, host, later, a, p)
  }

  /** The adoption's marking table and IPv4 rule are there, and its route table keeps to its interface (whether
      the interface is up or down). */
  ghost predicate InForce(k: Kernel, a: Adoption) {
    IsSlot(a.slot) && k.slots[a.slot].mark4 && k.slots[a.slot].nft == Some(Marking(a.group, a.iface))
    && SlotSafe(k.slots[a.slot].table, a.iface)
  }

  lemma InForceTreats(k: Kernel, live: seq<Adopted>, host: map<nat, Routing.Table>, later: seq<IpRule>, a: Adoption,
                      p: Packet)
    requires KernelSane(k) && InForce(k, a) && Loads(k, live) && Concerned(k, host, a, p)
    ensures PacketTreated(k, live, host, later, a, p)
  {
    var b := Adopted(a.slot, a.group, a.iface);
    LoadedGroupsDiffer(k, live);
    SlotRuleStands(k, a.slot, later);
    var c :| c in live && c.slot == a.slot;
    assert c == b;
    assert Adopt.TableAt(RouteTables(k, host), SlotTable(a.slot)) == k.slots[a.slot].table;
    AdoptionMeaning(live, b, IpRules(k, later), RuleAt(k, a.slot), RouteTables(k, host), p);
  }

  /** Whenever an adoption is in force, its traffic is treated as adopted. */
  lemma AdoptionHolds(k: Kernel, a: Adoption)
    requires KernelSane(k) && InForce(k, a)
    ensures Adopts(k, a)
  {
    forall live: seq<Adopted>, host: map<nat, Routing.Table>, later: seq<IpRule>, p: Packet
      | Loads(k, live) && Concerned(k, host, a, p)
      ensures PacketTreated(k, live, host, later, a, p)
    {
      InForceTreats(k, live, host, later, a, p);
    }
  }

  lemma StaysInForce(xs: seq<Adoption>, k0: Kernel, k: Kernel, a: Adoption)
    requires a in xs && SlotsStayTight(xs, k0, k) && InForce(k0, a)
    ensures InForce(k, a)
  {
  }

  /** An adoption, whatever an earlier one left in its slot's table, and then any number of link drops and passes,
      each failing or dying anywhere: the application's traffic is treated as adopted all the same. Where other
      programs write to slot tables, this needs the table to be empty before. */
  method AdoptAndRefresh(m: Host, id: string, iface: string, app: string, uid: nat, host: Option<nat>,
                         gone: set<Pid>, devs: seq<string>, full: bool) returns (r: AdoptResult)
    requires m.Valid() && iface in m.nm.known && app != ""
    requires StateFile.AdoptionId(id) && IdFree(m.disk, m.kern, id)
    modifies m
    ensures m.Valid() && old(m.trace) <= m.trace
    ensures r.Taken? ==> m.disk == WithAdoption(old(m.disk), r.a) && IsSlot(r.a.slot)
                         && (FreeOfOthers(m.nm, old(m.kern).slots[r.a.slot].table) ==> Adopts(m.kern, r.a))
  {
    r := AdoptApp(m, id, iface, app, uid, host, gone);
    ghost var k := m.kern;
    Rounds(m, devs, full);
    if r.Taken? && InForce(k, r.a) {
      StaysInForce(m.disk.adoptions, k, m.kern, r.a);
      m.Now();
      AdoptionHolds(m.kern, r.a);
    }
  }
}
