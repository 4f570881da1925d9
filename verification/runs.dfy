/** Whole runs: any sequence of actions, each failing or dying anywhere, with any changes of processes and
    links in between; and the watcher's pass (intermux/watch.py, run_once). */
module Runs {
  import opened Basics
  import opened Subnets
  import opened Procs
  import opened Record
  import opened Machine
  import opened Idle
  import opened Watch
  import opened Stop
  import opened Engine
  import opened Actions
  import opened Refresh
  import opened Adoptions
  import opened Resetting
  import opened Marks
  import opened Persistence
  import StateFile

  datatype Act =
    | DoBind(q: Request)
    | DoRestart(iface: string, app: string, uid: nat, foreign: seq<Net>)
    | DoMove(iface: string, app: string, to: string, uid: nat, foreign: seq<Net>)
    | DoStop(iface: string, app: string, uid: nat)
    | DoKill(app: string, uid: nat, force: bool)
    | DoRemove(iface: string, uid: nat)
    | DoTeardownIdle(unreadable: set<string>)
    | DoWatch(unreadable: set<string>, full: bool)
    | DoRefresh(full: bool)
    | DoSetDns(iface: string, dns: DnsChoice)
    | DoSetLimit(iface: string, limit: Limit)
    | DoAdopt(id: string, iface: string, app: string, uid: nat, host: Option<nat>, gone: set<Pid>)
    | DoRelease(id: string, user: Option<nat>)
    | DoReset(kill: Option<nat>)

  /** What callers of the actions guarantee: interfaces in use, parsed networks, and values the request checks
      let through. */
  ghost predicate Asked(nm: Naming, a: Act) {
    match a
    case DoBind(q) => q.iface in nm.known && Proper(q.foreign) && CheckedRequest(nm.lib, q)
    case DoRestart(_, _, _, foreign) => Proper(foreign)
    case DoMove(_, _, to, _, foreign) => to in nm.known && Proper(foreign)
    case DoSetDns(_, dns) => dns != KeepDns && (dns.UseDns? ==> StateFile.ValidServers(nm.lib, dns.servers))
    case DoSetLimit(_, limit) => CheckedLimit(limit)
    case DoAdopt(id, iface, app, _, _, _) => iface in nm.known && app != "" && StateFile.AdoptionId(id)
    case _ => true
  }

  /** run_once: nothing is written when neither the check nor a record asks for anything. When no command fails
      and no other program writes to the route tables, everything recorded that can be restored is. */
  method RunOnce(m: Host, unreadable: set<string>, full: bool)
    requires m.Valid()
    modifies m
    ensures m.Valid() && old(m.trace) <= m.trace && m.signalled == old(m.signalled)
    ensures !NeedsTeardown(old(m.disk), old(SightOf(m, unreadable))) ==> m.disk == old(m.disk)
    ensures NeedsTeardown(old(m.disk), old(SightOf(m, unreadable))) ==>
              || m.disk == AfterPass(m.nm, old(m.disk), old(SightOf(m, unreadable)))
              || (m.disk == old(m.disk) && m.faults > old(m.faults))
    ensures !NeedsTeardown(old(m.disk), old(SightOf(m, unreadable))) && old(m.disk).subnets == map[]
               && old(m.disk).adoptions == [] ==>
              m.kern == old(m.kern) && m.trace == old(m.trace)
    ensures m.faults == old(m.faults) && m.nm.ownTables ==> Restored(m.nm, m.disk, m.links, m.kern, full)
  {
    var idle := NeedsTeardown(m.disk, SightOf(m, unreadable));
    var wanted := m.disk.subnets != map[] || m.disk.adoptions != [];
    if idle {
      var r := TeardownIdle(m, unreadable);
      if r.Raised? { return; }
    }
    if wanted {
      RefreshAll(m, full);
    }
  }

  /** One action. The sixteen hex digits adopt draws for its id are taken to be new; an id in use is no action. */
  method Perform(m: Host, a: Act)
    requires m.Valid() && Asked(m.nm, a)
    modifies m
    ensures m.Valid() && old(m.trace) <= m.trace
  {
    match a
    case DoBind(q) => var r := Bind(m, q);
    case DoRestart(iface, app, uid, foreign) => var r := RestartApp(m, iface, app, uid, foreign);
    case DoMove(iface, app, to, uid, foreign) => var r := MoveApp(m, iface, app, to, uid, foreign);
    case DoStop(iface, app, uid) => var r := StopApp(m, iface, app, uid);
    case DoKill(app, uid, force) => var r := KillApp(m, app, uid, force);
    case DoRemove(iface, uid) => var r := RemoveNamespace(m, iface, uid);
    case DoTeardownIdle(unreadable) => var r := TeardownIdle(m, unreadable);
    case DoWatch(unreadable, full) => RunOnce(m, unreadable, full);
    case DoRefresh(full) => var done := RefreshRoutes(m, full);
    case DoSetDns(iface, dns) => var r := SetDns(m, iface, dns);
    case DoSetLimit(iface, limit) => var r := SetLimit(m, iface, limit);
    case DoAdopt(id, iface, app, uid, host, gone) =>
      if IdFree(m.disk, m.kern, id) {
        var r := AdoptApp(m, id, iface, app, uid, host, gone);
      }
    case DoRelease(id, user) => var r := ReleaseAdoption(m, id, user);
    case DoReset(kill) => var ok, busy := ResetAll(m, kill);
  }

  /** Every adoption in force of this kernel has its traffic treated as adopted. */
  ghost predicate AdoptionsHold(w: World) {
    forall a | a in w.disk.adoptions && InForce(w.kern, a) :: Adopts(w.kern, a)
  }

  lemma InvHolds(nm: Naming, w: World)
    requires CollisionFree(nm) && Inv(nm, w)
    ensures Sound(nm, w) && AdoptionsHold(w)
    ensures StateFile.Reliable(nm.lib) && NamesChecked(nm) ==> Survives(nm, w.disk)
  {
    InvIsSound(nm, w);
    forall a | a in w.disk.adoptions && InForce(w.kern, a) ensures Adopts(w.kern, a) {
      AdoptionHolds(w.kern, a);
    }
    if StateFile.Reliable(nm.lib) && NamesChecked(nm) {
      EngineStatesSurvive(nm, w.disk);
    }
  }

  /** Any run. Between two actions a program that died is started again, processes come and go, and the
      links change; `devs` names the device whose routes the kernel drops each time. At every step the world is
      sound, the adoptions in force do what they promise, and the state file is read back as it was saved. */
  method RunScript(m: Host, script: seq<Act>, devs: seq<string>)
    requires m.Valid() && |devs| == |script| && forall a | a in script :: Asked(m.nm, a)
    modifies m
    ensures m.Valid() && old(m.trace) <= m.trace
    ensures forall w | w in m.trace + [World(m.disk, m.kern, m.lost)] :: Sound(m.nm, w) && AdoptionsHold(w)
    ensures StateFile.Reliable(m.nm.lib) && NamesChecked(m.nm) ==>
              forall w | w in m.trace + [World(m.disk, m.kern, m.lost)] :: Survives(m.nm, w.disk)
  {
    for i := 0 to |script|
      invariant m.Valid() && old(m.trace) <= m.trace
    {
      m.Settle(devs[i]);
      assert script[i] in script;
      Perform(m, script[i]);
    }
    forall w | w in m.trace + [World(m.disk, m.kern, m.lost)]
      ensures Sound(m.nm, w) && AdoptionsHold(w)
      ensures StateFile.Reliable(m.nm.lib) && NamesChecked(m.nm) ==> Survives(m.nm, w.disk)
    {
      InvHolds(m.nm, w);
    }
  }

  // -------------------------------------------------------------- what every step keeps, spelled out

  /** Recorded subnets are pairwise distinct pool subnets, every binding's fields are those derived from its
      interface's record, (interface, application) pairs are unique, settings exist for recorded interfaces
      only, two interfaces share no address, namespace, table or priority, and two adoptions no slot, mark, table
      or priority; route tables that began with InterMux's own routes hold nothing else; unless a removal was lost
      since record and kernel last agreed, every InterMux object of the kernel belongs to a recorded interface. */
  ghost predicate Sound(nm: Naming, w: World) {
    && (forall i, j | i in w.disk.subnets && j in w.disk.subnets && i != j ::
          !ShareAddress(PoolNet(w.disk.subnets[i]), PoolNet(w.disk.subnets[j])))
    && (forall b | b in w.disk.bindings :: Derived(nm, w.disk, b))
    && (forall b, c | b in w.disk.bindings && c in w.disk.bindings && b.iface == c.iface && b.app == c.app :: b == c)
    && (forall b, c | b in w.disk.bindings && c in w.disk.bindings && b.iface != c.iface ::
          b.ns != c.ns && b.table != c.table && b.priority != c.priority)
    && (forall k, l | 0 <= k < l < |w.disk.adoptions| ::
          w.disk.adoptions[k].slot != w.disk.adoptions[l].slot && w.disk.adoptions[k].mark != w.disk.adoptions[l].mark
          && w.disk.adoptions[k].table != w.disk.adoptions[l].table
          && w.disk.adoptions[k].priority != w.disk.adoptions[l].priority)
    && w.disk.dns.Keys <= w.disk.subnets.Keys && w.disk.limits.Keys <= w.disk.subnets.Keys
    && (nm.ownTables ==> Shaped(w.kern))
    && (w.lost == 0 ==> EverythingOwned(nm, w))
  }

  /** Every namespace, veth, from-rule and NAT rule of InterMux has a recorded interface. */
  ghost predicate EverythingOwned(nm: Naming, w: World) {
    && (forall h | h in w.kern.namespaces || h in w.kern.veths :: exists i | i in w.disk.subnets :: nm.hash(i) == h)
    && (forall n: nat | 1 <= n <= 254 && OwnRule(n) in w.kern.rules ::
          exists i | i in w.disk.subnets :: w.disk.subnets[i] == n)
    && (forall n: nat, i: string | 1 <= n <= 254 && NatOf(w.kern.chains, i, n).0 :: Recorded(w.disk, i, n))
    && (forall n: nat | 1 <= n <= 254 && (NatOf(w.kern.chains, "", n).1 || NatOf(w.kern.chains, "", n).2) ::
          exists i | i in w.disk.subnets :: w.disk.subnets[i] == n)
  }

  lemma InvIsSound(nm: Naming, w: World)
    requires CollisionFree(nm) && Inv(nm, w)
    ensures Sound(nm, w)
  {
    forall i, j | i in w.disk.subnets && j in w.disk.subnets && i != j
      ensures !ShareAddress(PoolNet(w.disk.subnets[i]), PoolNet(w.disk.subnets[j]))
    {
      PoolNetsShareOnlyThemselves(w.disk.subnets[i], w.disk.subnets[j]);
    }
    forall b, c | b in w.disk.bindings && c in w.disk.bindings && b.iface == c.iface && b.app == c.app ensures b == c {
      var k :| 0 <= k < |w.disk.bindings| && w.disk.bindings[k] == b;
      var l :| 0 <= l < |w.disk.bindings| && w.disk.bindings[l] == c;
      assert k == l;
    }
    forall b, c | b in w.disk.bindings && c in w.disk.bindings && b.iface != c.iface
      ensures b.ns != c.ns && b.table != c.table && b.priority != c.priority
    {
      InterfacesApart(nm, w.disk, b, c);
    }
    forall k, l | 0 <= k < l < |w.disk.adoptions|
      ensures w.disk.adoptions[k].slot != w.disk.adoptions[l].slot
      ensures w.disk.adoptions[k].mark != w.disk.adoptions[l].mark
      ensures w.disk.adoptions[k].table != w.disk.adoptions[l].table
      ensures w.disk.adoptions[k].priority != w.disk.adoptions[l].priority
    {
      AdoptionsApart(nm, w.disk, k, l);
    }
    if w.lost == 0 {
      OwnedIfCovered(nm, w);
    }
  }

  lemma OwnedIfCovered(nm: Naming, w: World)
    requires Covered(nm, w.disk, w.kern)
    ensures EverythingOwned(nm, w)
  {
  }
}
