/** Building the plumbing of one interface, and taking it down again (intermux/engine.py, _bind_plumbed,
    _rollback_bind). */
module Build {
  import opened Basics
  import opened Subnets
  import opened Procs
  import opened Record
  import opened Adopt
  import opened Machine
  import opened Idle
  import Firewall
  import Routing

  /** Namespace, veth, rule and NAT rules are there. */
  ghost predicate Standing(k: Kernel, iface: string, n: nat, h: Hash) {
    var p := PlumbingOf(k, iface, n, h);
    p.ns && p.veth && p.rule && p.nat3 == (true, true, true)
  }

  /** Every wanted route is in the table, unless a default without gateway was hidden in the one before. */
  ghost predicate RoutesIn(k0: Kernel, k: Kernel, n: nat, p: Routing.Policy) {
    !Routing.Shadowed(TableAt(k0.tables, NetTable(n)), p)
    ==> forall w | w in Routing.Wanted(p) :: w in TableAt(k.tables, NetTable(n))
  }

  /** ensure_namespace and ensure_veth. */
  method BuildSpace(m: Host, h: Hash) returns (ok: bool)
    requires m.Valid() && h in Names(m.nm, m.disk)
    modifies m`kern, m`dead, m`trace, m`faults
    ensures m.Valid() && old(m.trace) <= m.trace && (old(m.dead) ==> m.dead)
    ensures m.kern == old(m.kern).(namespaces := m.kern.namespaces, veths := m.kern.veths)
    ensures old(m.kern).namespaces <= m.kern.namespaces
    ensures m.kern.namespaces - {h} == old(m.kern).namespaces - {h} && m.kern.veths - {h} == old(m.kern).veths - {h}
    ensures ok ==> h in m.kern.namespaces && h in m.kern.veths
    ensures old(m.faults) <= m.faults && (m.faults == old(m.faults) ==> ok)
  {
    ok := m.EnsureNamespace(h);
    if ok {
      ok := m.EnsureVeth(h);
    }
  }

  lemma EnsuredNat(cs: Firewall.Chains, n: nat, iface: string)
    ensures NatOf(Firewall.EnsureNat(cs, PoolNet(n), iface), iface, n) == (true, true, true)
  {
  }

  lemma EnsuredRoutes(t0: Routing.Table, p: Routing.Policy, t: Routing.Table)
    requires NoDup(t0) && Routing.ReplaceAll(t0, Routing.Replacements(p)).Some?
    requires Routing.Cleaned(Routing.ReplaceAll(t0, Routing.Replacements(p)).value, p, t) && !Routing.Shadowed(t0, p)
    ensures forall w | w in Routing.Wanted(p) :: w in t
  {
    Routing.EnsuredIffFits(t0, p);
    Routing.CleanedKeepsWanted(t0, p, t);
  }

  /** ensure_nat and ensure_policy. */
  method BuildRouting(m: Host, iface: string, n: nat, p: Routing.Policy) returns (ok: bool)
    requires m.Valid() && Recorded(m.disk, iface, n) && p.subnet == PoolNet(n)
    modifies m`kern, m`dead, m`trace, m`faults
    ensures m.Valid() && old(m.trace) <= m.trace && (old(m.dead) ==> m.dead)
    ensures m.kern == old(m.kern).(chains := m.kern.chains, tables := m.kern.tables, rules := m.kern.rules)
    ensures m.kern.rules - {OwnRule(n)} == old(m.kern).rules - {OwnRule(n)}
    ensures forall i | i != NetTable(n) :: TableAt(m.kern.tables, i) == TableAt(old(m.kern).tables, i)
    ensures forall j, i | i != n :: NatOf(m.kern.chains, j, i) == NatOf(old(m.kern).chains, j, i)
    ensures ok ==> OwnRule(n) in m.kern.rules && NatOf(m.kern.chains, iface, n) == (true, true, true)
    ensures ok ==> RoutesIn(old(m.kern), m.kern, n, p)
    ensures old(m.faults) <= m.faults && (m.faults == old(m.faults) ==>
               (ok <==> Routing.Fits(TableAt(old(m.kern).tables, NetTable(n)), p)))
    ensures ok && m.faults == old(m.faults) ==>
              Some(TableAt(m.kern.tables, NetTable(n))) == Routing.Ensured(TableAt(old(m.kern).tables, NetTable(n)), p)
    ensures ExactIfOwn(m.nm, m.kern, n, p, ok, m.faults == old(m.faults))
  {
    m.Now();
    ghost var k0 := m.kern;
    Routing.EnsuredIffFits(TableAt(k0.tables, NetTable(n)), p);
    ok := m.EnsureNat(n, iface);
    if ok {
      EnsuredNat(k0.chains, n, iface);
      ok := m.EnsurePolicy(n, p);
      if ok && !Routing.Shadowed(TableAt(k0.tables, NetTable(n)), p) {
        EnsuredRoutes(TableAt(k0.tables, NetTable(n)), p, TableAt(m.kern.tables, NetTable(n)));
      }
    }
  }

  /** The build steps of _bind_plumbed, in order; the first failure ends it. */
  method BuildAll(m: Host, iface: string, n: nat, p: Routing.Policy) returns (ok: bool)
    requires m.Valid() && Recorded(m.disk, iface, n) && p.subnet == PoolNet(n)
    modifies m`kern, m`dead, m`trace, m`faults
    ensures m.Valid() && old(m.trace) <= m.trace && (old(m.dead) ==> m.dead)
    ensures KeptPlumbing(m.nm, m.disk, old(m.kern), m.kern, {iface}) && old(m.kern).namespaces <= m.kern.namespaces
    ensures ok ==> Standing(m.kern, iface, n, m.nm.hash(iface)) && RoutesIn(old(m.kern), m.kern, n, p)
    ensures old(m.faults) <= m.faults && (m.faults == old(m.faults) ==>
               (ok <==> Routing.Fits(TableAt(old(m.kern).tables, NetTable(n)), p)))
    ensures ok && m.faults == old(m.faults) ==>
              Some(TableAt(m.kern.tables, NetTable(n))) == Routing.Ensured(TableAt(old(m.kern).tables, NetTable(n)), p)
    ensures ExactIfOwn(m.nm, m.kern, n, p, ok, m.faults == old(m.faults))
  {
    m.Now();
    ghost var k := m.kern;
    var h := m.nm.hash(iface);
    ok := BuildSpace(m, h);
    if ok {
      ok := m.Other();
    }
    if ok {
      ok := BuildRouting(m, iface, n, p);
    }
    SparedByParts(k, m.kern, iface, n, h);
    SparedKeeps(m.nm, m.disk, k, m.kern, iface);
  }

  // -------------------------------------------------------------- launching

  /** Replace the (interface, application) entry of a binding, or add it at the end. */
  function WithBinding(r: Saved, b: Binding): Saved {
    r.(bindings := Filter(r.bindings, (x: Binding) => !(x.iface == b.iface && x.app == b.app)) + [b])
  }

  /** The entry is the last one of the record, in place of the one it had for the same application and interface;
      all others are there in their order, and nothing else changed. */
  ghost predicate BindingReplaced(r0: Saved, r1: Saved, b: Binding) {
    && r1 == r0.(bindings := r1.bindings) && r1.bindings != [] && r1.bindings[|r1.bindings| - 1] == b
    && Within(r1.bindings[..|r1.bindings| - 1], r0.bindings)
    && forall x | x in r0.bindings :: x in r1.bindings[..|r1.bindings| - 1] <==> !(x.iface == b.iface && x.app == b.app)
  }

  lemma WithBindingIs(r: Saved, b: Binding)
    ensures BindingReplaced(r, WithBinding(r, b), b)
  {
    var keep := (x: Binding) => !(x.iface == b.iface && x.app == b.app);
    FilterWithin(r.bindings, keep);
    assert WithBinding(r, b).bindings[..|WithBinding(r, b).bindings| - 1] == Filter(r.bindings, keep);
  }

  lemma {:induction false} FilterApps(bs: seq<Binding>, keep: Binding -> bool)
    requires DistinctApps(bs)
    ensures DistinctApps(Filter(bs, keep))
  {
    if bs != [] {
      assert DistinctApps(bs[1..]);
      FilterApps(bs[1..], keep);
      var rest := Filter(bs[1..], keep);
      forall k | 0 <= k < |rest| ensures !(rest[k].iface == bs[0].iface && rest[k].app == bs[0].app) {
        assert rest[k] in bs[1..];
      }
    }
  }

  lemma WithBindingGood(nm: Naming, r: Saved, b: Binding)
    requires Good(nm, r) && Derived(nm, r, b)
    ensures Good(nm, WithBinding(r, b))
  {
    var keep := (x: Binding) => !(x.iface == b.iface && x.app == b.app);
    FilterApps(r.bindings, keep);
    var rest := Filter(r.bindings, keep);
    assert forall k | 0 <= k < |rest| :: rest[k] in rest && keep(rest[k]);
    forall x | x in WithBinding(r, b).bindings ensures Derived(nm, WithBinding(r, b), x) {
      assert x in r.bindings || x == b;
      assert Derived(nm, r, x);
    }
  }

  function NewBinding(nm: Naming, iface: string, app: string, n: nat, separate: bool, pid: Pid): Binding {
    Binding(iface, app, nm.hash(iface), n, NetTable(n), NetPriority(n), separate, Some(pid))
  }

  lemma WithBindingStored(nm: Naming, r: Saved, b: Binding)
    requires Stored(nm, r) && b.app != "" && (b.pid.Some? ==> b.pid.value > 1)
    ensures Stored(nm, WithBinding(r, b))
  {
    forall x | x in WithBinding(r, b).bindings ensures x.app != "" && (x.pid.Some? ==> x.pid.value > 1) {
      assert x in r.bindings || x == b;
    }
  }

  /** The launch: the process table afterwards is whatever it is. A process that already exited counts only
      if it exited with status 0 and the namespace is in use. */
  method Launch(m: Host, h: Hash) returns (pid: Option<Pid>)
    requires m.Valid()
    modifies m`procs, m`faults
    ensures m.Valid() && m.faults == old(m.faults) + if pid.Some? then 0 else 1
    ensures pid.Some? ==> pid.value > 1
  {
    var started: bool, exited: Option<int> := *, *;
    var p: Pid :| p > 1;
    m.procs := *;
    if !started || (exited.Some? && !(exited.value == 0 && m.Busy(h))) {
      m.faults := m.faults + 1;
      return None;
    }
    return Some(p);
  }

  /** _bind_plumbed from the second save on: launch, then record the binding. */
  method LaunchAndRecord(m: Host, st: State, iface: string, app: string, n: nat, separate: bool)
    returns (b: Option<Binding>, launched: Option<Pid>)
    requires m.Valid() && st.Rec() == m.disk && Recorded(m.disk, iface, n) && app != ""
    modifies m`disk, m`dead, m`trace, m`faults, m`procs, st
    ensures m.Valid() && old(m.trace) <= m.trace && (old(m.dead) ==> m.dead)
    ensures b == None ==> m.disk == old(m.disk)
    ensures b == None ==> if launched.Some? then HasBinding(st.bindings, iface) else st.Rec() == m.disk
    ensures b.Some? ==> launched.Some? && b.value.pid == launched
    ensures b.Some? ==> b.value.pid.Some? && b.value == NewBinding(m.nm, iface, app, n, separate, b.value.pid.value)
    ensures b.Some? ==> m.disk == WithBinding(old(m.disk), b.value)
    ensures old(m.faults) <= m.faults && (m.faults == old(m.faults) ==> b.Some?)
  {
    var pid := Launch(m, m.nm.hash(iface));
    launched := pid;
    if launched == None { return None, None; }
    m.Now();
    var made := NewBinding(m.nm, iface, app, n, separate, pid.value);
    var ok := SaveBinding(m, st, made);
    b := if ok then Some(made) else None;
  }

  method SaveBinding(m: Host, st: State, b: Binding) returns (ok: bool)
    requires m.Valid() && st.Rec() == m.disk && Derived(m.nm, m.disk, b) && b.app != ""
    requires b.pid.Some? ==> b.pid.value > 1
    modifies m`disk, m`dead, m`trace, m`faults, st
    ensures m.Valid() && old(m.trace) <= m.trace && (old(m.dead) ==> m.dead)
    ensures m.disk == if ok then WithBinding(old(m.disk), b) else old(m.disk)
    ensures HasBinding(st.bindings, b.iface) && m.faults == old(m.faults) + if ok then 0 else 1
  {
    m.Now();
    WithBindingGood(m.nm, m.disk, b);
    WithBindingStored(m.nm, m.disk, b);
    st.bindings := WithBinding(st.Rec(), b).bindings;
    assert st.Rec() == WithBinding(m.disk, b) && b in st.bindings;
    ok := m.Save(st);
  }

  /** _bind_plumbed. */
  method BindPlumbed(m: Host, st: State, iface: string, app: string, n: nat, p: Routing.Policy, separate: bool)
    returns (b: Option<Binding>, launched: Option<Pid>)
    requires m.Valid() && st.Rec() == m.disk && Recorded(m.disk, iface, n) && app != "" && p.subnet == PoolNet(n)
    modifies m`disk, m`kern, m`dead, m`trace, m`faults, m`procs, st
    ensures m.Valid() && old(m.trace) <= m.trace
    ensures KeptPlumbing(m.nm, old(m.disk), old(m.kern), m.kern, {iface})
    ensures b == None ==> m.disk == old(m.disk)
    ensures b == None ==> if launched.Some? then HasBinding(st.bindings, iface) else st.Rec() == m.disk
    ensures b.Some? ==> launched.Some? && b.value.pid == launched
    ensures b.Some? ==> b.value.pid.Some? && b.value == NewBinding(m.nm, iface, app, n, separate, b.value.pid.value)
    ensures b.Some? ==> m.disk == WithBinding(old(m.disk), b.value)
    ensures old(m.kern).namespaces <= m.kern.namespaces
    ensures b.Some? ==> Standing(m.kern, iface, n, m.nm.hash(iface)) && RoutesIn(old(m.kern), m.kern, n, p)
    ensures old(m.faults) <= m.faults && (m.faults == old(m.faults) ==>
               (b.Some? <==> Routing.Fits(TableAt(old(m.kern).tables, NetTable(n)), p)))
    ensures b.Some? && m.faults == old(m.faults) ==>
              Some(TableAt(m.kern.tables, NetTable(n))) == Routing.Ensured(TableAt(old(m.kern).tables, NetTable(n)), p)
    ensures ExactIfOwn(m.nm, m.kern, n, p, b.Some?, m.faults == old(m.faults))
  {
    var ok := BuildAll(m, iface, n, p);
    ok := Configure(m, st, ok);
    b, launched := None, None;
    if ok {
      b, launched := LaunchAndRecord(m, st, iface, app, n, separate);
    }
  }

  /** DNS files, then the second save of the same record. */
  method Configure(m: Host, st: State, built: bool) returns (ok: bool)
    requires m.Valid() && st.Rec() == m.disk
    modifies m`disk, m`dead, m`trace, m`faults
    ensures m.Valid() && old(m.trace) <= m.trace && m.disk == old(m.disk)
    ensures ok ==> built
    ensures old(m.faults) <= m.faults && (m.faults == old(m.faults) ==> ok == built)
  {
    ok := built;
    if ok {
      ok := m.Other();
    }
    if ok {
      m.Now();
      ok := m.Save(st);
    }
  }

  // -------------------------------------------------------------- rollback

  datatype Undo = InUse | Undone | Unrecorded

  /** The record after a teardown, complete or not; `r0` is the saved one. */
  lemma TornAndForgotten(nm: Naming, r0: Saved, r: Saved, k: Kernel, cuts: Cuts, iface: string)
    requires CollisionFree(nm) && Good(nm, r0) && Good(nm, r) && Stored(nm, r) && r.subnets == r0.subnets
    requires iface in r.subnets && !HasBinding(r.bindings, iface) && ChainsOnce(k.chains)
    ensures var n, h := r.subnets[iface], nm.hash(iface);
            var k' := Unplumb(k, iface, n, h, cuts);
            && KeptPlumbing(nm, r0, k, k', {iface}) && Good(nm, Forget(r, iface)) && Stored(nm, Forget(r, iface))
            && (cuts == ALL_CUTS ==> PlumbingOf(k', iface, n, h) == NO_PLUMBING
                                     && (Covered(nm, r, k) ==> Covered(nm, Forget(r, iface), k')))
  {
    UnplumbSpares(k, iface, r.subnets[iface], nm.hash(iface), cuts);
    SparedKeeps(nm, r0, k, Unplumb(k, iface, r.subnets[iface], nm.hash(iface), cuts), iface);
    ForgetKeepsGood(nm, r, iface);
    TornIsForgotten(nm, r, k, iface);
  }

  /** Tear one interface down, log a failure and forget it. */
  method TeardownSwallowed(m: Host, st: State, iface: string, n: nat)
    requires m.Valid() && Good(m.nm, st.Rec()) && Stored(m.nm, st.Rec()) && st.subnets == m.disk.subnets
    requires Recorded(m.disk, iface, n) && !HasBinding(st.bindings, iface)
    modifies m`kern, m`dead, m`trace, m`faults, m`lost, st
    ensures m.Valid() && old(m.trace) <= m.trace && (old(m.dead) ==> m.dead) && old(m.lost) <= m.lost
    ensures st.Rec() == Forget(old(st.Rec()), iface) && Good(m.nm, st.Rec()) && Stored(m.nm, st.Rec())
    ensures KeptPlumbing(m.nm, m.disk, old(m.kern), m.kern, {iface})
    ensures !m.dead && m.lost == old(m.lost) ==> PlumbingOf(m.kern, iface, n, m.nm.hash(iface)) == NO_PLUMBING
    ensures !m.dead && m.lost == 0 ==> Covered(m.nm, st.Rec(), m.kern)
    ensures old(m.faults) <= m.faults && (m.faults == old(m.faults) ==> m.lost == old(m.lost))
  {
    m.Now();
    ghost var k := m.kern;
    ghost var cuts;
    var ok;
    ok, cuts := m.TeardownPlumbing(iface, n, m.nm.hash(iface));
    m.Swallow(ok);
    TornAndForgotten(m.nm, m.disk, st.Rec(), k, cuts, iface);
    st.ForgetIface(iface);
  }

  /** _rollback_bind: take down what a bind that failed has built, as long as nobody uses the namespace. */
  method RollbackBind(m: Host, st: State, iface: string, n: nat) returns (u: Undo)
    requires m.Valid() && Recorded(m.disk, iface, n)
    requires st.Rec() == m.disk || HasBinding(st.bindings, iface)
    modifies m`disk, m`kern, m`dead, m`trace, m`faults, m`lost, st
    ensures m.Valid() && old(m.trace) <= m.trace && old(m.lost) <= m.lost
    ensures KeptPlumbing(m.nm, old(m.disk), old(m.kern), m.kern, {iface})
    ensures u.InUse? <==> HasBinding(old(st.bindings), iface) || old(m.Busy(m.nm.hash(iface)))
    ensures u.InUse? ==> m.disk == old(m.disk) && m.kern == old(m.kern)
    ensures u.Undone? ==> m.disk == Forget(old(m.disk), iface)
                          && (m.lost == old(m.lost) ==> PlumbingOf(m.kern, iface, n, m.nm.hash(iface)) == NO_PLUMBING)
    ensures u.Unrecorded? ==> m.disk == old(m.disk)
    ensures old(m.faults) <= m.faults && (m.faults == old(m.faults) ==> !u.Unrecorded? && m.lost == old(m.lost))
  {
    if HasBinding(st.bindings, iface) || m.Busy(m.nm.hash(iface)) { return InUse; }
    m.Now();
    TeardownSwallowed(m, st, iface, n);
    m.Now();
    var ok := m.Save(st);
    u := if ok then Undone else Unrecorded;
  }
}
