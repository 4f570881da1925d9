/** Routing a running application and releasing it (intermux/engine.py, adopt and release_adoption). */
module Adoptions {
  import opened Basics
  import opened Procs
  import opened Record
  import opened Adopt
  import opened Machine
  import opened Stop
  import Idle
  import Routing
  import StateFile

  // -------------------------------------------------------------- which processes

  /** filter_host_netns: the listed processes that live in the network of the host, or of which that cannot be told. */
  predicate OnHost(procs: seq<Proc>, host: Option<nat>, p: Pid) {
    exists q :: q in procs && q.pid == p && (host == None || q.netns == None || q.netns == host)
  }

  predicate InSomeGroup(k: Kernel, p: Pid) { exists g | g in k.groups :: p in k.groups[g] }

  ghost function AppFamily(m: Host, procs: seq<Proc>, app: string, uid: nat): set<Pid> {
    Family(procs, Some(uid), set q | q in procs && RunsApp(m, q, app, Some(uid)) :: q.pid)
  }

  method AppTree(m: Host, app: string, uid: nat) returns (tree: seq<Pid>)
    ensures forall p :: p in tree <==> p in AppFamily(m, m.procs, app, uid)
    ensures forall p | p in tree :: Owned(m.procs, uid, p)
  {
    var found := FindAppProcs(app, m.comm(app), Some(uid), m.me, m.procs);
    var seeds := PidsOfProcs(found);
    assert Elems(seeds) == set q | q in m.procs && RunsApp(m, q, app, Some(uid)) :: q.pid;
    FamilyOwned(m.procs, uid, Elems(seeds));
    tree := Descendants(seeds, m.procs, Some(uid));
    assert forall p :: p in tree <==> p in Elems(tree);
  }

  /** A process adopt may take: in the user's tree below one that runs the application, on the host's network or
      of unknown network, and in no group yet. */
  ghost predicate Candidate(m: Host, procs: seq<Proc>, k: Kernel, app: string, uid: nat, host: Option<nat>, p: Pid) {
    && (exists a :: RunsIt(m.me, m.comm(app), procs, app, Some(uid), a) && Reachable(procs, Some(uid), {a}, p))
    && (exists q :: q in procs && q.pid == p && (host == None || q.netns == None || q.netns == host))
    && forall g | g in k.groups :: p !in k.groups[g]
  }

  lemma CandidateIff(m: Host, procs: seq<Proc>, k: Kernel, app: string, uid: nat, host: Option<nat>, p: Pid)
    ensures Candidate(m, procs, k, app, uid, host, p) <==>
              p in AppFamily(m, procs, app, uid) && OnHost(procs, host, p) && !InSomeGroup(k, p)
  {
    var seeds := set q | q in procs && RunsApp(m, q, app, Some(uid)) :: q.pid;
    FamilyIsReachable(procs, Some(uid), seeds, p);
    ReachedFromOne(procs, Some(uid), seeds, p);
    forall a ensures a in seeds <==> RunsIt(m.me, m.comm(app), procs, app, Some(uid), a) {
      RunsItIff(m, procs, app, Some(uid), a);
    }
  }

  ghost predicate NothingToTake(m: Host, app: string, uid: nat, host: Option<nat>)
    reads m
  {
    !exists p :: Candidate(m, m.procs, m.kern, app, uid, host, p)
  }

  /** The user's processes of the application that are not routed yet. */
  method Candidates(m: Host, app: string, uid: nat, host: Option<nat>) returns (pids: seq<Pid>, already: bool)
    ensures forall p :: p in pids <==> Candidate(m, m.procs, m.kern, app, uid, host, p)
    ensures forall p | p in pids :: Owned(m.procs, uid, p)
    ensures pids == [] <==> NothingToTake(m, app, uid, host)
  {
    var tree := AppTree(m, app, uid);
    var k, procs := m.kern, m.procs;
    var here := Filter(tree, (p: Pid) => OnHost(procs, host, p));
    pids := Filter(here, (p: Pid) => !InSomeGroup(k, p));
    already := |pids| < |here|;
    forall p ensures p in pids <==> Candidate(m, procs, k, app, uid, host, p) {
      CandidateIff(m, procs, k, app, uid, host, p);
    }
    assert pids != [] ==> pids[0] in pids;
  }

  // -------------------------------------------------------------- adopt

  datatype AdoptResult = Declined | AdoptFailed(slot: nat) | Taken(a: Adoption)

  function NewAdoption(id: string, iface: string, app: string, slot: nat, uid: nat): Adoption {
    Adoption(id, iface, app, slot, Group(id), Mark(slot), SlotTable(slot), SlotPriority(slot), uid)
  }

  function WithAdoption(r: Saved, a: Adoption): Saved { r.(adoptions := r.adoptions + [a]) }

  /** A new adoption: its own slot and id, and values within what loading accepts. */
  ghost predicate Recordable(nm: Naming, r: Saved, a: Adoption) {
    GoodAdoption(a) && (forall x | x in r.adoptions :: x.slot != a.slot && x.id != a.id)
    && StateFile.AdoptionId(a.id) && a.iface in nm.known && a.app != ""
  }

  /** An id drawn at random that neither a recorded adoption nor a loaded table has. */
  predicate IdFree(r: Saved, k: Kernel, id: string) {
    (forall a | a in r.adoptions :: a.id != id)
    && forall s: nat | 1 <= s <= 200 && k.slots[s].nft.Some? :: k.slots[s].nft.value.group != Group(id)
  }

  lemma WithAdoptionInv(nm: Naming, r: Saved, a: Adoption, k: Kernel, lost: nat)
    requires Inv(nm, World(r, k, lost)) && Recordable(nm, r, a)
    ensures Inv(nm, World(WithAdoption(r, a), k, lost))
  {
  }

  /** Only these pids may have joined a group; everything else of the kernel but the groups is the same. */
  ghost predicate OnlyJoined(k: Kernel, k': Kernel, group: string, pids: seq<Pid>) {
    k' == k.(groups := k'.groups) && forall p | p in Members(k', group) :: p in Members(k, group) || p in pids
  }

  /** The given pids whose process is still the same. */
  ghost function StillThere(pids: seq<Pid>, gone: set<Pid>): set<Pid> { set p | p in pids && p !in gone }

  /** ensure_group and the moves. `gone` are the pids that exited or were reused by the time of the check right
      before their move: these are skipped, and so are those whose move fails. */
  method MovePids(m: Host, group: string, pids: seq<Pid>, gone: set<Pid>, ghost slot: nat, ghost from: nat)
      returns (ok: bool, moved: seq<Pid>)
    requires m.Valid() && IsSlot(slot) && Armed(m.kern, slot) && ArmedSince(m.trace, from, slot)
    modifies m`kern, m`dead, m`trace, m`faults
    ensures m.Valid() && old(m.trace) <= m.trace && (old(m.dead) ==> m.dead)
    ensures OnlyJoined(old(m.kern), m.kern, group, pids)
    ensures Armed(m.kern, slot) && ArmedSince(m.trace, from, slot)
    ensures ok ==> group in m.kern.groups
    ensures forall p | p in moved :: p in pids && p !in gone && (ok ==> p in Members(m.kern, group))
    ensures old(m.faults) <= m.faults && (m.faults == old(m.faults) ==> ok)
    ensures m.faults == old(m.faults) ==>
              (forall p :: p in moved <==> p in pids && p !in gone)
              && Members(m.kern, group) == Members(old(m.kern), group) + StillThere(pids, gone)
  {
    moved := [];
    ok := true;
    if group !in m.kern.groups {
      ok := m.RunGroups(m.kern.groups[group := {}], slot, from);
    }
    if !ok { return; }
    for i := 0 to |pids|
      invariant m.Valid() && old(m.trace) <= m.trace && (old(m.dead) ==> m.dead)
      invariant OnlyJoined(old(m.kern), m.kern, group, pids) && group in m.kern.groups
      invariant ArmedSince(m.trace, from, slot) && old(m.faults) <= m.faults
      invariant forall p | p in moved :: p in pids && p !in gone && p in m.kern.groups[group]
      invariant m.faults == old(m.faults) ==>
                  (forall p :: p in moved <==> p in pids[..i] && p !in gone)
                  && m.kern.groups[group] == Members(old(m.kern), group) + StillThere(pids[..i], gone)
    {
      assert pids[..i + 1] == pids[..i] + [pids[i]];
      if pids[i] !in gone {
        var joined := m.RunGroups(MoveIn(m.kern.groups, group, pids[i]), slot, from);
        moved := if joined then moved + [pids[i]] else moved;
      }
    }
    assert pids[..|pids|] == pids;
  }

  /** Only InterMux writes to slot tables, or this one is empty. */
  predicate FreeOfOthers(nm: Naming, t: Routing.Table) { nm.ownTables || t == [] }

  /** The slot carries the adoption: marks, rules, routes and the marking table. */
  ghost predicate Routed(k: Kernel, slot: nat, group: string, iface: string)
    requires IsSlot(slot)
  {
    var s := k.slots[slot];
    s.mark4 && s.mark6 && s.hole6 && SlotComplete(s.table) && s.nft == Some(Marking(group, iface))
  }

  /** apply_policy, then apply_nft. */
  method Route(m: Host, slot: nat, group: string, iface: string, gateway: Option<string>, ghost from: nat)
      returns (ok: bool)
    requires m.Valid() && IsSlot(slot) && Armed(m.kern, slot) && ArmedSince(m.trace, from, slot)
    requires GroupFree(m.kern, slot, group)
    modifies m`kern, m`dead, m`trace, m`faults
    ensures m.Valid() && old(m.trace) <= m.trace && (old(m.dead) ==> m.dead)
    ensures OnlySlot(old(m.kern), m.kern, slot) && m.kern.groups == old(m.kern).groups
    ensures Armed(m.kern, slot) && ArmedSince(m.trace, from, slot)
    ensures ok ==> Routed(m.kern, slot, group, iface)
    ensures ok && FreeOfOthers(m.nm, old(m.kern).slots[slot].table) ==> SlotSafe(m.kern.slots[slot].table, iface)
    ensures old(m.faults) <= m.faults && (m.faults == old(m.faults) ==>
               (ok <==> Routing.ReplaceAll(old(m.kern).slots[slot].table,
                   Routing.Replacements(SlotPolicy(iface, gateway))).Some?))
    ensures m.faults == old(m.faults) && m.nm.ownTables ==> ok
  {
    ok := m.ApplyPolicy(slot, iface, gateway, from);
    if ok {
      RouteCommands([], iface, gateway);
      ok := m.ApplyNft(slot, group, iface, from);
    }
  }

  /** Move, route, record: false when a step failed or no process was moved. */
  method JoinAndRecord(m: Host, st: State, a: Adoption, pids: seq<Pid>, gone: set<Pid>, gateway: Option<string>,
                       ghost from: nat)
    returns (ok: bool, moved: seq<Pid>)
    requires m.Valid() && st.Rec() == m.disk && Recordable(m.nm, m.disk, a) && GroupFree(m.kern, a.slot, a.group)
    requires Armed(m.kern, a.slot) && ArmedSince(m.trace, from, a.slot)
    modifies m`kern, m`dead, m`trace, m`faults, m`disk, st
    ensures m.Valid() && old(m.trace) <= m.trace
    ensures OnlySlot(old(m.kern), m.kern, a.slot)
    ensures Armed(m.kern, a.slot) && ArmedSince(m.trace, from, a.slot)
    ensures m.disk == if ok then WithAdoption(old(m.disk), a) else old(m.disk)
    ensures ok ==> Routed(m.kern, a.slot, a.group, a.iface)
                   && (FreeOfOthers(m.nm, old(m.kern).slots[a.slot].table) ==>
                         SlotSafe(m.kern.slots[a.slot].table, a.iface))
    ensures forall p | p in Members(m.kern, a.group) :: p in Members(old(m.kern), a.group) || p in pids
    ensures old(m.faults) <= m.faults && (m.faults == old(m.faults) ==>
               (ok <==> moved != [] && Routing.ReplaceAll(old(m.kern).slots[a.slot].table,
                   Routing.Replacements(SlotPolicy(a.iface, gateway))).Some?))
    ensures ok ==> exists p :: p in pids && p !in gone && p in Members(m.kern, a.group)
    ensures m.faults == old(m.faults) && m.nm.ownTables ==> (ok <==> exists p :: p in pids && p !in gone)
    ensures m.faults == old(m.faults) && ok ==>
              Members(m.kern, a.group) == Members(old(m.kern), a.group) + StillThere(pids, gone)
  {
    ok, moved := MovePids(m, a.group, pids, gone, a.slot, from);
    assert moved != [] ==> moved[0] in moved;
    if ok && moved != [] {
      ok := Route(m, a.slot, a.group, a.iface, gateway, from);
    } else {
      ok := false;
    }
    if ok {
      ok := SaveAdoption(m, st, a, from);
    }
  }

  method SaveAdoption(m: Host, st: State, a: Adoption, ghost from: nat) returns (ok: bool)
    requires m.Valid() && st.Rec() == m.disk && Recordable(m.nm, m.disk, a)
    requires Armed(m.kern, a.slot) && ArmedSince(m.trace, from, a.slot)
    modifies m`dead, m`trace, m`faults, m`disk, st
    ensures m.Valid() && old(m.trace) <= m.trace
    ensures ArmedSince(m.trace, from, a.slot)
    ensures m.disk == if ok then WithAdoption(old(m.disk), a) else old(m.disk)
    ensures m.faults == old(m.faults) + if ok then 0 else 1
  {
    m.Now();
    WithAdoptionInv(m.nm, m.disk, a, m.kern, m.lost);
    st.adoptions := st.adoptions + [a];
    assert st.Rec() == WithAdoption(m.disk, a);
    ok := m.Save(st);
  }

  /** The slots a listing of the loaded nft tables names. */
  function KernelSlots(k: Kernel): set<nat> { set s: nat | 1 <= s <= 200 && k.slots[s].nft.Some? }

  /** A slot of 1 to 200 that has a marking table loaded or is recorded. */
  ghost predicate SlotUsed(r: Saved, k: Kernel, s: nat) {
    1 <= s <= 200 && (k.slots[s].nft.Some? || exists a :: a in r.adoptions && a.slot == s)
  }

  ghost predicate SlotsTaken(m: Host)
    reads m
  {
    forall s | 1 <= s <= 200 :: SlotUsed(m.disk, m.kern, s)
  }

  method ChooseSlot(m: Host, xs: seq<Adoption>) returns (slot: Option<nat>)
    requires xs == m.disk.adoptions
    ensures slot == None <==> SlotsTaken(m)
    ensures slot.Some? ==>
              IsSlot(slot.value) && m.kern.slots[slot.value].nft == None && forall a | a in xs :: a.slot != slot.value
    ensures slot.Some? ==> forall s | 1 <= s < slot.value :: SlotUsed(m.disk, m.kern, s)
  {
    var used := (set a | a in xs :: a.slot) + KernelSlots(m.kern);
    assert forall s | 1 <= s <= 200 :: s in used <==> SlotUsed(m.disk, m.kern, s);
    slot := PickSlot(used);
  }

  /** Some candidate of the user is still there to be taken. */
  ghost predicate SomeToTake(m: Host, procs: seq<Proc>, k: Kernel, app: string, uid: nat, host: Option<nat>,
                             gone: set<Pid>)
  {
    exists p :: Candidate(m, procs, k, app, uid, host, p) && p !in gone
  }

  /** Somebody joined the group, only candidates of the user did, and when nothing failed all that were still
      there. */
  ghost predicate CandidatesJoined(m: Host, procs: seq<Proc>, k0: Kernel, k1: Kernel, app: string, uid: nat,
                                   host: Option<nat>, gone: set<Pid>, g: string, faultless: bool)
  {
    && (exists p :: p in Members(k1, g) && p !in Members(k0, g))
    && (forall p | p in Members(k1, g) && p !in Members(k0, g) ::
          Candidate(m, procs, k0, app, uid, host, p) && Owned(procs, uid, p))
    && (faultless ==> forall p | Candidate(m, procs, k0, app, uid, host, p) :: p in Members(k1, g) <==> p !in gone)
  }

  lemma JoinedAre(m: Host, procs: seq<Proc>, k0: Kernel, k1: Kernel, app: string, uid: nat, host: Option<nat>,
                  pids: seq<Pid>, gone: set<Pid>, g: string, faultless: bool)
    requires forall p :: p in pids <==> Candidate(m, procs, k0, app, uid, host, p)
    requires forall p | p in pids :: Owned(procs, uid, p)
    requires exists p :: p in pids && p !in gone && p in Members(k1, g)
    requires forall p | p in Members(k1, g) :: p in Members(k0, g) || p in pids
    requires faultless ==> Members(k1, g) == Members(k0, g) + StillThere(pids, gone)
    ensures CandidatesJoined(m, procs, k0, k1, app, uid, host, gone, g, faultless)
  {
  }

  /** Adopt refuses: the interface cannot be used, there is nothing to take, or no slot is left. */
  ghost predicate Declines(m: Host, iface: string, app: string, uid: nat, host: Option<nat>)
    reads m
  {
    iface !in m.links || !m.links[iface].bindable || NothingToTake(m, app, uid, host) || SlotsTaken(m)
  }

  method FindTarget(m: Host, xs: seq<Adoption>, iface: string, app: string, uid: nat, host: Option<nat>)
    returns (slot: Option<nat>, pids: seq<Pid>)
    requires xs == m.disk.adoptions
    ensures slot == None <==> Declines(m, iface, app, uid, host)
    ensures slot.Some? ==> iface in m.links && IsSlot(slot.value) && m.kern.slots[slot.value].nft == None
                           && forall a | a in xs :: a.slot != slot.value
    ensures slot.Some? ==> forall s | 1 <= s < slot.value :: SlotUsed(m.disk, m.kern, s)
    ensures forall p :: p in pids <==> Candidate(m, m.procs, m.kern, app, uid, host, p)
    ensures forall p | p in pids :: Owned(m.procs, uid, p)
  {
    var already;
    pids, already := Candidates(m, app, uid, host);
    slot := ChooseSlot(m, xs);
    if iface !in m.links || !m.links[iface].bindable || pids == [] {
      slot := None;
    }
  }

  /** adopt. `host` is the host's network namespace, `id` the random id of the adoption, and `gone` the
      candidates that exited or were reused by the time of their move. */
  method AdoptApp(m: Host, id: string, iface: string, app: string, uid: nat, host: Option<nat>, gone: set<Pid>)
    returns (r: AdoptResult)
    requires m.Valid() && iface in m.nm.known && app != ""
    requires StateFile.AdoptionId(id) && IdFree(m.disk, m.kern, id)
    modifies m
    ensures m.Valid() && old(m.trace) <= m.trace && m.signalled == old(m.signalled)
    ensures r.Declined? ==> m.disk == old(m.disk) && m.kern == old(m.kern)
    ensures r.Taken? ==>
              && GoodAdoption(r.a) && r.a == NewAdoption(id, iface, app, r.a.slot, uid)
              && r.a.id == id && r.a.iface == iface && r.a.app == app && r.a.uid == uid
              && m.disk == old(m.disk).(adoptions := old(m.disk).adoptions + [r.a])
              && (forall s | 1 <= s <= 200 && s < r.a.slot :: SlotUsed(old(m.disk), old(m.kern), s))
              && !SlotUsed(old(m.disk), old(m.kern), r.a.slot)
              && Routed(m.kern, r.a.slot, r.a.group, iface) && OnlySlot(old(m.kern), m.kern, r.a.slot)
              && (FreeOfOthers(m.nm, old(m.kern).slots[r.a.slot].table) ==>
                    SlotSafe(m.kern.slots[r.a.slot].table, iface))
              && ArmedSince(m.trace, |old(m.trace)|, r.a.slot)
    ensures r.AdoptFailed? ==>
              && IsSlot(r.slot) && m.disk == old(m.disk) && OnlySlot(old(m.kern), m.kern, r.slot)
              && (m.stuck == old(m.stuck) ==> ArmedSince(m.trace, |old(m.trace)|, r.slot))
              && (m.stuck == old(m.stuck) && !m.dead ==> m.kern.slots[r.slot] == NO_SLOT && Group(id) !in m.kern.groups)
    ensures old(m.faults) <= m.faults && (m.faults == old(m.faults) ==> m.stuck == old(m.stuck))
    ensures r.Taken? ==> CandidatesJoined(m, old(m.procs), old(m.kern), m.kern, app, uid, host, gone, Group(id),
                                          m.faults == old(m.faults))
    ensures m.faults == old(m.faults) && m.nm.ownTables && !r.Declined? ==>
              (r.Taken? <==> SomeToTake(m, old(m.procs), old(m.kern), app, uid, host, gone))
    ensures m.faults == old(m.faults) && r.AdoptFailed? ==>
              m.kern.slots[r.slot] == NO_SLOT && Group(id) !in m.kern.groups
    ensures r.Declined? <==> old(Declines(m, iface, app, uid, host))
  {
    m.Now();
    var st := m.Load();
    var slot, pids := FindTarget(m, st.adoptions, iface, app, uid, host);
    if slot == None { return Declined; }
    r := AdoptCandidates(m, st, NewAdoption(id, iface, app, slot.value, uid), pids, gone, m.links[iface].gateway, host);
  }

  /** AdoptOn, told by candidates instead of the list of them. */
  method AdoptCandidates(m: Host, st: State, a: Adoption, pids: seq<Pid>, gone: set<Pid>, gateway: Option<string>,
                         ghost host: Option<nat>) returns (r: AdoptResult)
    requires m.Valid() && st.Rec() == m.disk && Recordable(m.nm, m.disk, a)
    requires m.kern.slots[a.slot].nft == None && GroupFree(m.kern, a.slot, a.group)
    requires forall p :: p in pids <==> Candidate(m, m.procs, m.kern, a.app, a.uid, host, p)
    requires forall p | p in pids :: Owned(m.procs, a.uid, p)
    modifies m`kern, m`dead, m`trace, m`faults, m`disk, m`stuck, st
    ensures m.Valid() && old(m.trace) <= m.trace && OnlySlot(old(m.kern), m.kern, a.slot)
    ensures r == Taken(a) || (r.AdoptFailed? && r.slot == a.slot)
    ensures m.disk == if r.Taken? then WithAdoption(old(m.disk), a) else old(m.disk)
    ensures r.Taken? ==> Routed(m.kern, a.slot, a.group, a.iface)
                           && (FreeOfOthers(m.nm, old(m.kern).slots[a.slot].table) ==>
                                 SlotSafe(m.kern.slots[a.slot].table, a.iface))
    ensures r.Taken? || m.stuck == old(m.stuck) ==> ArmedSince(m.trace, |old(m.trace)|, a.slot)
    ensures r.AdoptFailed? && m.stuck == old(m.stuck) && !m.dead ==>
              m.kern.slots[a.slot] == NO_SLOT && a.group !in m.kern.groups
    ensures old(m.faults) <= m.faults && (m.faults == old(m.faults) ==> m.stuck == old(m.stuck))
    ensures m.faults == old(m.faults) && r.AdoptFailed? ==> m.kern.slots[a.slot] == NO_SLOT && a.group !in m.kern.groups
    ensures r.Taken? ==> CandidatesJoined(m, m.procs, old(m.kern), m.kern, a.app, a.uid, host, gone, a.group,
                                          m.faults == old(m.faults))
    ensures m.faults == old(m.faults) && m.nm.ownTables ==>
              (r.Taken? <==> SomeToTake(m, m.procs, old(m.kern), a.app, a.uid, host, gone))
  {
    ghost var k0 := m.kern;
    r := AdoptOn(m, st, a, pids, gone, gateway);
    SomeLeft(m, m.procs, k0, a.app, a.uid, host, pids, gone);
    if r.Taken? {
      JoinedAre(m, m.procs, k0, m.kern, a.app, a.uid, host, pids, gone, a.group, m.faults == old(m.faults));
    }
  }

  lemma SomeLeft(m: Host, procs: seq<Proc>, k: Kernel, app: string, uid: nat, host: Option<nat>, pids: seq<Pid>,
                 gone: set<Pid>)
    requires forall p :: p in pids <==> Candidate(m, procs, k, app, uid, host, p)
    ensures SomeToTake(m, procs, k, app, uid, host, gone) <==> exists p :: p in pids && p !in gone
  {
  }

  method AdoptOn(m: Host, st: State, a: Adoption, pids: seq<Pid>, gone: set<Pid>, gateway: Option<string>)
    returns (r: AdoptResult)
    requires m.Valid() && st.Rec() == m.disk && Recordable(m.nm, m.disk, a)
    requires m.kern.slots[a.slot].nft == None && GroupFree(m.kern, a.slot, a.group)
    modifies m`kern, m`dead, m`trace, m`faults, m`disk, m`stuck, st
    ensures m.Valid() && old(m.trace) <= m.trace && OnlySlot(old(m.kern), m.kern, a.slot)
    ensures m.faults == old(m.faults) && m.nm.ownTables ==> (r.Taken? <==> exists p :: p in pids && p !in gone)
    ensures r.Taken? ==> exists p :: p in pids && p !in gone && p in Members(m.kern, a.group)
    ensures m.faults == old(m.faults) && r.Taken? ==>
              Members(m.kern, a.group) == Members(old(m.kern), a.group) + StillThere(pids, gone)
    ensures r == Taken(a) || (r.AdoptFailed? && r.slot == a.slot)
    ensures m.disk == if r.Taken? then WithAdoption(old(m.disk), a) else old(m.disk)
    ensures r.Taken? ==> Routed(m.kern, a.slot, a.group, a.iface)
                           && (FreeOfOthers(m.nm, old(m.kern).slots[a.slot].table) ==>
                                 SlotSafe(m.kern.slots[a.slot].table, a.iface))
    ensures r.Taken? ==> forall p | p in Members(m.kern, a.group) :: p in Members(old(m.kern), a.group) || p in pids
    ensures r.Taken? || m.stuck == old(m.stuck) ==> ArmedSince(m.trace, |old(m.trace)|, a.slot)
    ensures r.AdoptFailed? && m.stuck == old(m.stuck) && !m.dead ==>
              m.kern.slots[a.slot] == NO_SLOT && a.group !in m.kern.groups
    ensures old(m.faults) <= m.faults && (m.faults == old(m.faults) ==> m.stuck == old(m.stuck))
    ensures m.faults == old(m.faults) && r.AdoptFailed? ==> m.kern.slots[a.slot] == NO_SLOT && a.group !in m.kern.groups
  {
    ghost var from := |m.trace|;
    var ok, moved := JoinAndRecord(m, st, a, pids, gone, gateway, from);
    if ok {
      r := Taken(a);
    } else {
      m.RollbackAdopt(a.group, a.slot, from);
      r := AdoptFailed(a.slot);
    }
  }

  // -------------------------------------------------------------- release_adoption

  datatype ReleaseResult = NoAdoption | OtherOwner | StillIn(pids: set<Pid>) | NotRecorded | Released

  function FindAdoption(xs: seq<Adoption>, id: string): Option<Adoption> {
    if xs == [] then None else if xs[0].id == id then Some(xs[0]) else FindAdoption(xs[1..], id)
  }

  lemma {:induction false} FoundAdoption(xs: seq<Adoption>, id: string)
    requires DistinctSlots(xs)
    ensures FindAdoption(xs, id).Some? ==>
              var a := FindAdoption(xs, id).value; a in xs && a.id == id && GoodAdoption(a)
    ensures FindAdoption(xs, id) == None <==> forall x | x in xs :: x.id != id
  {
    if xs != [] {
      assert DistinctSlots(xs[1..]);
      FoundAdoption(xs[1..], id);
      assert GoodAdoption(xs[0]);
    }
  }

  function WithoutAdoption(r: Saved, id: string): Saved {
    r.(adoptions := Filter(r.adoptions, (a: Adoption) => a.id != id))
  }

  /** release_adoption; `user` is the uid that asks, None for the administrator. */
  method ReleaseAdoption(m: Host, id: string, user: Option<nat>) returns (r: ReleaseResult)
    requires m.Valid()
    modifies m
    ensures m.Valid() && old(m.trace) <= m.trace && OnlyAdoption(old(m.kern), m.kern) && m.signalled == old(m.signalled)
    ensures m.disk == if r.Released? then WithoutAdoption(old(m.disk), id) else old(m.disk)
    ensures m.disk == old(m.disk).(adoptions := m.disk.adoptions) && Within(m.disk.adoptions, old(m.disk).adoptions)
    ensures r.Released? ==> forall x | x in old(m.disk).adoptions :: x in m.disk.adoptions <==> x.id != id
    ensures r.NoAdoption? || r.OtherOwner? ==> m.kern == old(m.kern)
    ensures r.NoAdoption? <==> FindAdoption(old(m.disk).adoptions, id) == None
    ensures r.NoAdoption? <==> forall x | x in old(m.disk).adoptions :: x.id != id
    ensures r.OtherOwner? <==> FindAdoption(old(m.disk).adoptions, id).Some? && user.Some?
                               && user.value != FindAdoption(old(m.disk).adoptions, id).value.uid
    ensures forall g :: Members(m.kern, g) <= Members(old(m.kern), g)
    ensures !r.NoAdoption? && !r.OtherOwner? ==>
              var a := FindAdoption(old(m.disk).adoptions, id).value;
              && a in old(m.disk).adoptions && a.id == id
              && (r.Released? ==> Members(m.kern, a.group) == {})
              && (r.StillIn? ==> r.pids == Members(m.kern, a.group) && r.pids != {})
              && IsSlot(a.slot) && OnlySlot(old(m.kern), m.kern, a.slot)
              && OrderKeptIff(old(m.kern), m.trace, |old(m.trace)|, a.slot, m.faults == old(m.faults))
              && (m.stuck == old(m.stuck) && !m.dead ==> m.kern.slots[a.slot] == NO_SLOT && a.group !in m.kern.groups)
    ensures old(m.faults) <= m.faults && (m.faults == old(m.faults) ==>
               !r.NotRecorded? && !r.StillIn? && m.stuck == old(m.stuck))
  {
    m.Now();
    FilterWithin(m.disk.adoptions, (a: Adoption) => a.id != id);
    WithinSelf(m.disk.adoptions);
    var st := m.Load();
    FoundAdoption(st.adoptions, id);
    var found := FindAdoption(st.adoptions, id);
    if found == None {
      r := NoAdoption;
    } else if user.Some? && user.value != found.value.uid {
      r := OtherOwner;
    } else {
      r := ReleaseOn(m, st, found.value, user);
    }
  }

  method ReleaseOn(m: Host, st: State, a: Adoption, user: Option<nat>) returns (r: ReleaseResult)
    requires m.Valid() && st.Rec() == m.disk && IsSlot(a.slot)
    modifies m`kern, m`dead, m`trace, m`faults, m`disk, m`stuck, st
    ensures m.Valid() && old(m.trace) <= m.trace && OnlySlot(old(m.kern), m.kern, a.slot)
    ensures r.StillIn? || r.NotRecorded? || r.Released?
    ensures OrderKeptIff(old(m.kern), m.trace, |old(m.trace)|, a.slot, m.faults == old(m.faults))
    ensures m.disk == if r.Released? then WithoutAdoption(old(m.disk), a.id) else old(m.disk)
    ensures forall g :: Members(m.kern, g) <= Members(old(m.kern), g)
    ensures r.Released? ==> Members(m.kern, a.group) == {}
    ensures r.StillIn? ==> r.pids == Members(m.kern, a.group) && r.pids != {}
    ensures m.stuck == old(m.stuck) && !m.dead ==> m.kern.slots[a.slot] == NO_SLOT && a.group !in m.kern.groups
    ensures old(m.faults) <= m.faults && (m.faults == old(m.faults) ==> r.Released? && m.stuck == old(m.stuck))
  {
    ghost var from := |m.trace|;
    var members := Members(m.kern, a.group);
    var pids := Listed(if user == None then members
                       else set p | p in m.procs && p.pid in members && p.uid == user.value :: p.pid);
    m.ReleasePlumbing(a, pids);
    var remaining := Members(m.kern, a.group);
    if remaining != {} {
      r := StillIn(remaining);
    } else {
      r := DropAdoption(m, st, a.id, a.slot, from);
    }
  }

  method DropAdoption(m: Host, st: State, id: string, ghost slot: nat, ghost from: nat) returns (r: ReleaseResult)
    requires m.Valid() && st.Rec() == m.disk && IsSlot(slot)
    modifies m`dead, m`trace, m`faults, m`disk, st
    ensures m.Valid() && old(m.trace) <= m.trace && (old(m.dead) ==> m.dead) && (r.Released? || r.NotRecorded?)
    ensures m.disk == if r.Released? then WithoutAdoption(old(m.disk), id) else old(m.disk)
    ensures m.faults == old(m.faults) + if r.Released? then 0 else 1
    ensures Armed(m.kern, slot) ==> (ArmedSince(m.trace, from, slot) <==> ArmedSince(old(m.trace), from, slot))
  {
    m.Now();
    Idle.FilterSlots(st.adoptions, (a: Adoption) => a.id != id);
    DropKeepsInv(m.nm, m.disk, WithoutAdoption(m.disk, id), m.kern, m.lost);
    st.adoptions := Filter(st.adoptions, (a: Adoption) => a.id != id);
    assert st.Rec() == WithoutAdoption(m.disk, id);
    var ok := m.Save(st);
    r := if ok then Released else NotRecorded;
  }

  lemma DropKeepsInv(nm: Naming, r: Saved, r1: Saved, k: Kernel, lost: nat)
    requires Inv(nm, World(r, k, lost)) && r1 == r.(adoptions := r1.adoptions) && DistinctSlots(r1.adoptions)
    requires forall a | a in r1.adoptions :: a in r.adoptions
    ensures Inv(nm, World(r1, k, lost))
  {
  }
}
