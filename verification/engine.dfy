/** The actions on bindings (intermux/engine.py): bind, restart, move, remove, set_dns, set_limit. */
module Engine {
  import opened Basics
  import opened Subnets
  import opened Procs
  import opened Record
  import opened Adopt
  import opened Machine
  import opened Idle
  import opened Stop
  import opened Build
  import Routing
  import StateFile

  datatype RunningPolicy = Ask | Close | Separate

  datatype DnsChoice = KeepDns | AutoDns | UseDns(servers: seq<string>)

  /** The validated request of a bind. `foreign` are the networks in use on the host besides the recorded
      ones: addresses of its interfaces and routes of its main and Tailscale tables. */
  datatype Request = Request(iface: string, app: string, uid: nat, policy: RunningPolicy, dns: DnsChoice,
                             keepSeparate: bool, limit: Option<Limit>, foreign: seq<Net>)

  datatype Refusal = NoInterface | NotBindable | AlreadyRunning(pids: seq<Pid>) | StillRunning(pids: seq<Pid>)
    | NoSubnet | NotSaved | NoBindingFor

  datatype BindResult = Refused(why: Refusal) | Failed(net: nat, undo: Undo, launched: bool) | Bound(b: Binding)

  // -------------------------------------------------------------- the record a bind starts from

  predicate Limits(x: Option<real>) { x.Some? && x.value != 0.0 }

  function WithDns(r: Saved, iface: string, dns: DnsChoice): Saved {
    match dns
    case KeepDns => r
    case AutoDns => r.(dns := r.dns - {iface})
    case UseDns(servers) => r.(dns := r.dns[iface := servers])
  }

  function WithLimit(r: Saved, iface: string, limit: Option<Limit>): Saved {
    if limit == None then r
    else if Limits(limit.value.down) || Limits(limit.value.up) then r.(limits := r.limits[iface := limit.value])
    else r.(limits := r.limits - {iface})
  }

  /** The record that is saved before anything is built. */
  function Requested(r: Saved, q: Request, n: nat): Saved {
    WithLimit(WithDns(r, q.iface, q.dns), q.iface, q.limit).(subnets := r.subnets[q.iface := n])
  }

  /** n is the interface's index, or a new one that no recorded interface and no network of the host uses. */
  ghost predicate Fresh(r: Saved, iface: string, foreign: seq<Net>, n: nat)
    requires Proper(foreign)
  {
    if iface in r.subnets then n == r.subnets[iface]
    else 1 <= n <= 254 && n !in r.subnets.Values && Unused(PoolNet(n), foreign)
  }

  lemma OneMoreSubnet(subnets: map<string, nat>, iface: string, n: nat)
    requires DistinctSubnets(subnets) && 1 <= n <= 254
    requires if iface in subnets then n == subnets[iface] else n !in subnets.Values
    ensures DistinctSubnets(subnets[iface := n])
  {
  }

  /** What a request leaves alone. */
  lemma RequestedParts(r: Saved, q: Request, n: nat)
    ensures var r1 := Requested(r, q, n);
            && r1 == r.(subnets := r.subnets[q.iface := n], dns := r1.dns, limits := r1.limits)
            && r1.dns.Keys <= r.dns.Keys + {q.iface} && r1.limits.Keys <= r.limits.Keys + {q.iface}
  {
  }

  /** Recording a subnet for an interface, and settings for it, keeps the record good. */
  lemma MoreIsGood(nm: Naming, r: Saved, r1: Saved, iface: string, n: nat)
    requires Good(nm, r) && iface in nm.known && DistinctSubnets(r1.subnets)
    requires r1 == r.(subnets := r.subnets[iface := n], dns := r1.dns, limits := r1.limits)
    requires r1.dns.Keys <= r.dns.Keys + {iface} && r1.limits.Keys <= r.limits.Keys + {iface}
    requires iface in r.subnets ==> n == r.subnets[iface]
    ensures Good(nm, r1)
  {
    forall b | b in r1.bindings ensures Derived(nm, r1, b) {
      assert Derived(nm, r, b);
    }
  }

  lemma RequestedGood(nm: Naming, r: Saved, q: Request, n: nat)
    requires Good(nm, r) && q.iface in nm.known && 1 <= n <= 254
    requires if q.iface in r.subnets then n == r.subnets[q.iface] else n !in r.subnets.Values
    ensures Good(nm, Requested(r, q, n)) && Recorded(Requested(r, q, n), q.iface, n)
    ensures Requested(r, q, n).bindings == r.bindings
  {
    OneMoreSubnet(r.subnets, q.iface, n);
    RequestedParts(r, q, n);
    MoreIsGood(nm, r, Requested(r, q, n), q.iface, n);
  }

  /** Recording one more interface uncovers nothing. */
  lemma MoreRecorded(nm: Naming, r: Saved, r1: Saved, k: Kernel)
    requires Covered(nm, r, k) && forall i | i in r.subnets :: Recorded(r1, i, r.subnets[i])
    ensures Covered(nm, r1, k)
  {
  }

  /** A validated request: servers and limits in range, and an application path. */
  ghost predicate CheckedRequest(lib: StateFile.Lib, q: Request) {
    q.app != "" && (q.dns.UseDns? ==> StateFile.ValidServers(lib, q.dns.servers))
    && (q.limit.Some? ==> CheckedLimit(q.limit.value))
  }

  /** check_mbit lets both directions through. */
  ghost predicate CheckedLimit(l: Limit) { StateFile.InRange(l.down) && StateFile.InRange(l.up) }

  lemma DnsStaysStored(nm: Naming, r: Saved, iface: string, dns: DnsChoice)
    requires Stored(nm, r) && (dns.UseDns? ==> StateFile.ValidServers(nm.lib, dns.servers))
    ensures Stored(nm, WithDns(r, iface, dns))
  {
  }

  lemma LimitStaysStored(nm: Naming, r: Saved, iface: string, limit: Option<Limit>)
    requires Stored(nm, r) && (limit.Some? ==> CheckedLimit(limit.value))
    ensures Stored(nm, WithLimit(r, iface, limit))
  {
  }

  lemma RequestedStored(nm: Naming, r: Saved, q: Request, n: nat)
    requires Stored(nm, r) && CheckedRequest(nm.lib, q)
    ensures Stored(nm, Requested(r, q, n))
  {
    DnsStaysStored(nm, r, q.iface, q.dns);
    LimitStaysStored(nm, WithDns(r, q.iface, q.dns), q.iface, q.limit);
  }

  lemma RequestedInv(nm: Naming, r: Saved, q: Request, n: nat, k: Kernel, lost: nat)
    requires Inv(nm, World(r, k, lost)) && q.iface in nm.known && CheckedRequest(nm.lib, q) && 1 <= n <= 254
    requires if q.iface in r.subnets then n == r.subnets[q.iface] else n !in r.subnets.Values
    ensures Inv(nm, World(Requested(r, q, n), k, lost)) && Recorded(Requested(r, q, n), q.iface, n)
  {
    RequestedGood(nm, r, q, n);
    RequestedStored(nm, r, q, n);
    if lost == 0 {
      RequestedParts(r, q, n);
      MoreRecorded(nm, r, Requested(r, q, n), k);
    }
  }

  /** The DNS choice of the interface is the asked one: as before, automatic (no entry), or these servers. */
  ghost predicate DnsRecorded(r0: Saved, r1: Saved, iface: string, dns: DnsChoice) {
    match dns
    case KeepDns => (iface in r1.dns <==> iface in r0.dns) && (iface in r0.dns ==> r1.dns[iface] == r0.dns[iface])
    case AutoDns => iface !in r1.dns
    case UseDns(servers) => iface in r1.dns && r1.dns[iface] == servers
  }

  /** The limit of the interface is the asked one: as before, none (nothing or 0 both ways), or this one. */
  ghost predicate LimitRecorded(r0: Saved, r1: Saved, iface: string, limit: Option<Limit>) {
    match limit
    case None =>
      (iface in r1.limits <==> iface in r0.limits) && (iface in r0.limits ==> r1.limits[iface] == r0.limits[iface])
    case Some(Limit(down, up)) =>
      if (down == None || down == Some(0.0)) && (up == None || up == Some(0.0)) then iface !in r1.limits
      else iface in r1.limits && r1.limits[iface] == limit.value
  }

  /** Subnet, DNS choice and limit of the interface are the asked ones, and nothing else changed but bindings. */
  ghost predicate RequestRecorded(r0: Saved, r1: Saved, q: Request, n: nat) {
    && q.iface in r1.subnets && r1.subnets[q.iface] == n
    && DnsRecorded(r0, r1, q.iface, q.dns) && LimitRecorded(r0, r1, q.iface, q.limit)
    && r1.adoptions == r0.adoptions && forall i | i != q.iface :: SettingsSame(r0, r1, i)
  }

  lemma DnsIs(r: Saved, iface: string, dns: DnsChoice)
    ensures DnsRecorded(r, WithDns(r, iface, dns), iface, dns)
    ensures WithDns(r, iface, dns) == r.(dns := WithDns(r, iface, dns).dns)
    ensures forall i | i != iface :: SettingsSame(r, WithDns(r, iface, dns), i)
  {
  }

  lemma LimitIs(r: Saved, iface: string, limit: Option<Limit>)
    ensures LimitRecorded(r, WithLimit(r, iface, limit), iface, limit)
    ensures WithLimit(r, iface, limit) == r.(limits := WithLimit(r, iface, limit).limits)
    ensures forall i | i != iface :: SettingsSame(r, WithLimit(r, iface, limit), i)
  {
  }

  lemma RequestedIs(r: Saved, q: Request, n: nat)
    ensures RequestRecorded(r, Requested(r, q, n), q, n) && Requested(r, q, n).bindings == r.bindings
  {
    DnsIs(r, q.iface, q.dns);
    LimitIs(WithDns(r, q.iface, q.dns), q.iface, q.limit);
  }

  /** Undoing a bind on an interface that was not recorded gives the old record back. */
  lemma UndoneBindIsForgotten(nm: Naming, r: Saved, q: Request, n: nat)
    requires Good(nm, r) && q.iface !in r.subnets
    ensures Forget(Requested(r, q, n), q.iface) == r
  {
    DnsUndone(r, q.iface, q.dns);
    LimitUndone(WithDns(r, q.iface, q.dns), q.iface, q.limit);
    assert r.subnets[q.iface := n] - {q.iface} == r.subnets;
  }

  lemma DnsUndone(r: Saved, iface: string, dns: DnsChoice)
    requires iface !in r.dns
    ensures WithDns(r, iface, dns).dns - {iface} == r.dns
    ensures WithDns(r, iface, dns) == r.(dns := WithDns(r, iface, dns).dns)
  {
  }

  lemma LimitUndone(r: Saved, iface: string, limit: Option<Limit>)
    requires iface !in r.limits
    ensures WithLimit(r, iface, limit).limits - {iface} == r.limits
    ensures WithLimit(r, iface, limit) == r.(limits := WithLimit(r, iface, limit).limits)
  {
  }

  /** The subnet of the interface: the recorded one, else pick_subnet over all networks in use. */
  method ChooseSubnet(nm: Naming, r: Saved, iface: string, foreign: seq<Net>) returns (n: Option<nat>)
    requires Good(nm, r) && Proper(foreign)
    ensures n.Some? ==> 1 <= n.value <= 254 && Fresh(r, iface, foreign, n.value)
    ensures n.Some? && iface !in r.subnets ==> forall k: nat | 1 <= k < n.value ::
               k in r.subnets.Values || !Unused(PoolNet(k), foreign)
    ensures n == None ==> iface !in r.subnets && forall k: nat | 1 <= k <= 254 ::
               k in r.subnets.Values || !Unused(PoolNet(k), foreign)
  {
    if iface in r.subnets { return Some(r.subnets[iface]); }
    var ns := Listed(r.subnets.Values);
    var used := seq(|ns|, i requires 0 <= i < |ns| => PoolNet(ns[i])) + foreign;
    assert forall k | k in r.subnets.Values :: k in Elems(ns);
    assert forall u | u in used :: u.len <= 32;
    var net := PickSubnet(used, None);
    forall k: nat | 1 <= k <= 254 ensures Unused(PoolNet(k), used) <==>
        k !in r.subnets.Values && Unused(PoolNet(k), foreign) {
      UsedByRecord(r, ns, used, foreign, k);
    }
    if net == None { return None; }
    IndexOfNet(net.value);
    n := IndexOf(net.value);
  }

  lemma IndexOfNet(net: Net)
    ensures (exists n: nat | 1 <= n <= 254 :: net == PoolNet(n)) ==>
               IndexOf(net).Some? && net == PoolNet(IndexOf(net).value)
  {
    if n: nat :| 1 <= n <= 254 && net == PoolNet(n) {
      IndexRoundTrip(n);
    }
  }

  lemma UsedByRecord(r: Saved, ns: seq<nat>, used: seq<Net>, foreign: seq<Net>, k: nat)
    requires DistinctSubnets(r.subnets) && Elems(ns) == r.subnets.Values && 1 <= k <= 254
    requires |used| == |ns| + |foreign| && used[|ns|..] == foreign
    requires forall i | 0 <= i < |ns| :: used[i] == PoolNet(ns[i])
    requires forall u | u in used :: u.len <= 32
    ensures Unused(PoolNet(k), used) <==> k !in r.subnets.Values && Unused(PoolNet(k), foreign)
  {
    forall i | 0 <= i < |ns| ensures ShareAddress(PoolNet(k), used[i]) <==> k == ns[i] {
      assert ns[i] in Elems(ns);
      PoolNetsShareOnlyThemselves(k, ns[i]);
    }
    forall u | u in used ensures (exists i :: 0 <= i < |ns| && used[i] == u) || u in foreign {
      var i :| 0 <= i < |used| && used[i] == u;
      if i >= |ns| { assert used[|ns|..][i - |ns|] == u; }
    }
    forall u | u in foreign ensures u in used {
      var i :| 0 <= i < |foreign| && foreign[i] == u;
      assert used[|ns| + i] == used[|ns|..][i];
    }
    if k in r.subnets.Values {
      assert k in Elems(ns);
      var i :| 0 <= i < |ns| && ns[i] == k;
      assert used[i] in used;
    }
  }

  // -------------------------------------------------------------- bind

  /** Everything that counts as the application running: by name or path, or in a namespace of a binding. */
  ghost predicate IsRunning(m: Host, procs: seq<Proc>, spaces: set<Hash>, bs: seq<Binding>, app: string, uid: nat,
                            p: Pid)
  {
    || RunsIt(m.me, m.comm(app), procs, app, Some(uid), p)
    || (exists b :: b in bs && b.app == app && BelongsTo(m, procs, spaces, bs, b, Some(uid), p))
  }

  /** _bound_app_pids. */
  method BoundAppPids(m: Host, bs: seq<Binding>, app: string, uid: nat) returns (pids: seq<Pid>)
    ensures forall p :: p in pids <==> exists b :: b in bs && b.app == app
                                                   && BelongsTo(m, m.procs, m.kern.namespaces, bs, b, Some(uid), p)
  {
    pids := [];
    for i := 0 to |bs|
      invariant forall p :: p in pids <==>
                  exists k :: 0 <= k < i && bs[k].app == app
                              && BelongsTo(m, m.procs, m.kern.namespaces, bs, bs[k], Some(uid), p)
    {
      ghost var before := pids;
      if bs[i].app == app {
        var more := BindingPids(m, bs, bs[i], Some(uid));
        pids := pids + more;
      }
    }
  }

  /** The pids bind asks about, in the order it reports them; all of them belong to the user. */
  method RunningPids(m: Host, bs: seq<Binding>, app: string, uid: nat) returns (pids: seq<Pid>)
    ensures forall p :: p in pids <==> IsRunning(m, m.procs, m.kern.namespaces, bs, app, uid, p)
    ensures forall p | p in pids :: Owned(m.procs, uid, p)
  {
    var found := FindAppProcs(app, m.comm(app), Some(uid), m.me, m.procs);
    var known := PidsOfProcs(found);
    RunsItAll(m, m.procs, app, uid, found, known);
    var bound := BoundAppPids(m, bs, app, uid);
    pids := known + Filter(bound, (p: Pid) => p !in known);
  }

  /** The interface has no subnet, and none is left for it. */
  ghost predicate NoneFree(r: Saved, iface: string, foreign: seq<Net>)
    requires Proper(foreign)
  {
    iface !in r.subnets && forall k: nat | 1 <= k <= 254 :: k in r.subnets.Values || !Unused(PoolNet(k), foreign)
  }

  /** Bind refuses exactly for these reasons, in this order; `running` is what ran at the start. */
  ghost predicate RefusedFor(links: map<string, Link>, r0: Saved, q: Request, running: iset<Pid>, left: seq<Pid>,
                             r: BindResult)
    requires Proper(q.foreign)
  {
    var why := if r.Refused? then Some(r.why) else None;
    if q.iface !in links then why == Some(NoInterface)
    else if !links[q.iface].bindable then why == Some(NotBindable)
    else if InTheWay(q, running, left) then why.Some? && NamesThem(q, running, left, why.value)
    else if NoneFree(r0, q.iface, q.foreign) then why == Some(NoSubnet)
    else why == None || why == Some(NotSaved)
  }

  predicate Proper(nets: seq<Net>) { forall u | u in nets :: u.len <= 32 }

  /** What counts as running when bind is asked. */
  ghost function RunningNow(m: Host, q: Request): iset<Pid>
    reads m
  {
    iset p | IsRunning(m, m.procs, m.kern.namespaces, m.disk.bindings, q.app, q.uid, p)
  }

  /** When bind goes no further: it is to ask and something runs, or it is to close that and some is left. */
  ghost predicate InTheWay(q: Request, running: iset<Pid>, left: seq<Pid>) {
    running != iset{} && (q.policy == Ask || (q.policy == Close && left != []))
  }

  /** What bind then reports: all that runs, or all that is left. */
  ghost predicate NamesThem(q: Request, running: iset<Pid>, left: seq<Pid>, why: Refusal) {
    if q.policy == Ask then why.AlreadyRunning? && forall p :: p in why.pids <==> p in running
    else q.policy == Close && why == StillRunning(left)
  }

  /** Only a bind that is to close signals anybody: what runs and what is below that. */
  ghost predicate Closes(m: Host, q: Request, procs: seq<Proc>, running: iset<Pid>, before: seq<Pid>, left: seq<Pid>)
    reads m
  {
    if q.policy == Close then Told(m.me, procs, q.uid, running, before, m.signalled)
    else m.signalled == before && m.left == left
  }

  /** The running check of bind: refuse, close what runs, or start beside it. */
  method CheckRunning(m: Host, bs: seq<Binding>, q: Request) returns (why: Option<Refusal>, separate: bool)
    requires m.Valid() && bs == m.disk.bindings
    modifies m`procs, m`signalled, m`left
    ensures m.Valid() && SignalledOnly(old(m.procs), q.uid, old(m.signalled), m.signalled)
    ensures q.policy != Close ==> m.procs == old(m.procs)
    ensures Closes(m, q, old(m.procs), old(RunningNow(m, q)), old(m.signalled), old(m.left))
    ensures q.policy == Close && old(RunningNow(m, q)) != iset{} ==>
              LeftOf(m, old(m.procs), q.uid, old(RunningNow(m, q)))
    ensures why.Some? <==> InTheWay(q, old(RunningNow(m, q)), m.left)
    ensures why.Some? ==> NamesThem(q, old(RunningNow(m, q)), m.left, why.value)
    ensures separate <==> q.keepSeparate || (q.policy == Separate && old(RunningNow(m, q)) != iset{})
  {
    ghost var running := RunningNow(m, q);
    var pids := RunningPids(m, bs, q.app, q.uid);
    why, separate := None, q.keepSeparate;
    assert running == iset p | p in pids;
    if pids == [] {
      NothingBelow(m.procs, q.uid, running);
    } else {
      assert pids[0] in running;
      match q.policy
      case Ask => why := Some(AlreadyRunning(pids));
      case Separate => separate := true;
      case Close => why := CloseRunning(m, pids, q.uid);
    }
  }

  method CloseRunning(m: Host, pids: seq<Pid>, uid: nat) returns (why: Option<Refusal>)
    requires m.Valid() && forall p | p in pids :: Owned(m.procs, uid, p)
    modifies m`procs, m`signalled, m`left
    ensures m.Valid() && SignalledOnly(old(m.procs), uid, old(m.signalled), m.signalled)
    ensures Told(m.me, old(m.procs), uid, (iset p | p in pids), old(m.signalled), m.signalled)
    ensures LeftOf(m, old(m.procs), uid, iset p | p in pids)
    ensures why == if m.left == [] then None else Some(StillRunning(m.left))
  {
    var targets, survivors := TerminateOwned(m, pids, uid, false);
    why := if survivors == [] then None else Some(StillRunning(survivors));
  }

  function PolicyFor(nm: Naming, iface: string, n: nat, gateway: Option<string>): Routing.Policy {
    Routing.Policy(PoolNet(n), iface, gateway, Some(nm.veth(nm.hash(iface))))
  }

  /** A separate profile is used when it is kept, or when the policy allows it beside a running copy. */
  predicate ProfileOf(q: Request, separate: bool) {
    (q.keepSeparate ==> separate) && (q.policy != Separate ==> separate == q.keepSeparate)
  }

  /** What a bind comes to, given the record, the kernel and the number of lost removals it started from. */
  ghost predicate BindOutcome(m: Host, r0: Saved, k0: Kernel, q: Request, gateway: Option<string>, r: BindResult,
                              l0: nat)
    requires Proper(q.foreign)
    reads m
  {
    var h := m.nm.hash(q.iface);
    match r
    case Refused(_) => m.disk == r0 && m.kern == k0
    case Bound(b) =>
      && Fresh(r0, q.iface, q.foreign, b.net) && ProfileOf(q, b.separate)
      && b.pid.Some? && b == NewBinding(m.nm, q.iface, q.app, b.net, b.separate, b.pid.value)
      && m.disk == WithBinding(Requested(r0, q, b.net), b)
      && Standing(m.kern, q.iface, b.net, h) && RoutesIn(k0, m.kern, b.net, PolicyFor(m.nm, q.iface, b.net, gateway))
      && (m.nm.ownTables ==>
            Routing.TableOk(TableAt(m.kern.tables, NetTable(b.net)), PolicyFor(m.nm, q.iface, b.net, gateway)))
    case Failed(n, undo, launched) =>
      && Fresh(r0, q.iface, q.foreign, n)
      && m.disk == (if undo == Undone then Forget(Requested(r0, q, n), q.iface) else Requested(r0, q, n))
      && (undo == Undone && m.lost == l0 ==> PlumbingOf(m.kern, q.iface, n, h) == NO_PLUMBING)
      && (if undo == InUse then HasBinding(r0.bindings, q.iface) || launched || m.Busy(h)
          else !HasBinding(r0.bindings, q.iface) && !launched && SpaceOf(m.procs, k0.namespaces, h, None) == {})
  }

  /** What a bind leaves in the record, entry by entry. */
  ghost predicate BindRecord(nm: Naming, r0: Saved, r1: Saved, q: Request, r: BindResult) {
    match r
    case Refused(_) => r1 == r0
    case Bound(b) =>
      && b.iface == q.iface && b.app == q.app && Derived(nm, r1, b) && RequestRecorded(r0, r1, q, b.net)
      && BindingReplaced(r0.(subnets := r1.subnets, dns := r1.dns, limits := r1.limits), r1, b)
    case Failed(n, undo, _) =>
      && r1.bindings == r0.bindings && r1.adoptions == r0.adoptions
      && if undo == Undone then SettingsGone(r1, q.iface) && forall i | i != q.iface :: SettingsSame(r0, r1, i)
         else RequestRecorded(r0, r1, q, n)
  }

  lemma BoundRecordIs(nm: Naming, r: Saved, q: Request, n: nat, separate: bool, pid: Pid)
    ensures var b := NewBinding(nm, q.iface, q.app, n, separate, pid);
            BindRecord(nm, r, WithBinding(Requested(r, q, n), b), q, Bound(b))
  {
    var b := NewBinding(nm, q.iface, q.app, n, separate, pid);
    var mid := Requested(r, q, n);
    RequestedIs(r, q, n);
    RequestedParts(r, q, n);
    WithBindingIs(mid, b);
    var r1 := WithBinding(mid, b);
    assert r1 == mid.(bindings := r1.bindings);
    assert mid == r.(subnets := r1.subnets, dns := r1.dns, limits := r1.limits);
    StillRecorded(r, mid, r1, q, n);
  }

  /** Bindings do not matter to what a request recorded. */
  lemma StillRecorded(r: Saved, mid: Saved, r1: Saved, q: Request, n: nat)
    requires RequestRecorded(r, mid, q, n) && r1 == mid.(bindings := r1.bindings)
    ensures RequestRecorded(r, r1, q, n)
  {
    forall i | i != q.iface ensures SettingsSame(r, r1, i) {
      assert SettingsSame(r, mid, i);
    }
  }

  lemma ForgetIs(r: Saved, iface: string)
    ensures SettingsGone(Forget(r, iface), iface) && forall i | i != iface :: SettingsSame(r, Forget(r, iface), i)
    ensures Forget(r, iface).bindings == r.bindings && Forget(r, iface).adoptions == r.adoptions
  {
  }

  lemma SettingsThrough(r0: Saved, r1: Saved, r2: Saved, i: string)
    requires SettingsSame(r0, r1, i) && SettingsSame(r1, r2, i)
    ensures SettingsSame(r0, r2, i)
  {
  }

  lemma FailedRecordIs(nm: Naming, r: Saved, q: Request, n: nat, undo: Undo, launched: bool)
    ensures var r1 := if undo == Undone then Forget(Requested(r, q, n), q.iface) else Requested(r, q, n);
            BindRecord(nm, r, r1, q, Failed(n, undo, launched))
  {
    var mid := Requested(r, q, n);
    RequestedIs(r, q, n);
    ForgetIs(mid, q.iface);
    forall i | i != q.iface ensures SettingsSame(r, Forget(mid, q.iface), i) {
      SettingsThrough(r, mid, Forget(mid, q.iface), i);
    }
  }

  lemma BindRecordIs(m: Host, r0: Saved, k0: Kernel, q: Request, gateway: Option<string>, r: BindResult, l0: nat)
    requires Proper(q.foreign) && BindOutcome(m, r0, k0, q, gateway, r, l0)
    ensures BindRecord(m.nm, r0, m.disk, q, r)
  {
    match r
    case Refused(_) =>
    case Failed(n, undo, launched) => FailedRecordIs(m.nm, r0, q, n, undo, launched);
    case Bound(b) => BoundRecordIs(m.nm, r0, q, b.net, b.separate, b.pid.value);
  }

  /** What a bind comes to when no command fails: it is refused, or bound with exactly the table ensure_policy
      makes of the old one; it fails only if that table had a hidden wanted route, which takes another program
      that writes to it. */
  ghost predicate FaultlessBind(m: Host, k0: Kernel, q: Request, gateway: Option<string>, r: BindResult)
    reads m
  {
    match r
    case Refused(why) => why != NotSaved
    case Bound(b) =>
      Some(TableAt(m.kern.tables, NetTable(b.net)))
      == Routing.Ensured(TableAt(k0.tables, NetTable(b.net)), PolicyFor(m.nm, q.iface, b.net, gateway))
    case Failed(n, undo, _) =>
      !m.nm.ownTables && undo != Unrecorded
      && !Routing.Fits(TableAt(k0.tables, NetTable(n)), PolicyFor(m.nm, q.iface, n, gateway))
  }

  /** Bind once its request is saved: build, launch and record, or roll back. `r0` is the record before. */
  method BindOrUndo(m: Host, st: State, q: Request, n: nat, gateway: Option<string>, separate: bool, ghost r0: Saved)
    returns (r: BindResult)
    requires m.Valid() && st.Rec() == m.disk && m.disk == Requested(r0, q, n) && Recorded(m.disk, q.iface, n)
    requires q.app != "" && ProfileOf(q, separate) && Proper(q.foreign) && Fresh(r0, q.iface, q.foreign, n)
    modifies m`disk, m`kern, m`dead, m`trace, m`faults, m`procs, m`lost, st
    ensures m.Valid() && old(m.trace) <= m.trace && !r.Refused?
    ensures BindOutcome(m, r0, old(m.kern), q, gateway, r, old(m.lost))
    ensures r.Bound? ==> r.b.separate == separate
    ensures KeptPlumbing(m.nm, old(m.disk), old(m.kern), m.kern, {q.iface})
    ensures old(m.faults) <= m.faults && (m.faults == old(m.faults) ==> FaultlessBind(m, old(m.kern), q, gateway, r))
  {
    ghost var k0 := m.kern;
    assert m.disk.bindings == r0.bindings;
    var b, launched := BindPlumbed(m, st, q.iface, q.app, n, PolicyFor(m.nm, q.iface, n, gateway), separate);
    if b.Some? {
      r := Bound(b.value);
    } else {
      MoreSpaces(m.procs, k0.namespaces, m.kern.namespaces, m.nm.hash(q.iface));
      var u := RollbackBind(m, st, q.iface, n);
      r := Failed(n, u, launched.Some?);
    }
  }

  /** From the first save of bind on. */
  method BindRecorded(m: Host, st: State, q: Request, n: nat, gateway: Option<string>, separate: bool)
      returns (r: BindResult)
    requires m.Valid() && q.iface in m.nm.known && CheckedRequest(m.nm.lib, q) && st.Rec() == m.disk
    requires ProfileOf(q, separate) && Proper(q.foreign) && 1 <= n <= 254 && Fresh(m.disk, q.iface, q.foreign, n)
    modifies m`disk, m`kern, m`dead, m`trace, m`faults, m`procs, m`lost, st
    ensures m.Valid() && old(m.trace) <= m.trace
    ensures BindOutcome(m, old(m.disk), old(m.kern), q, gateway, r, old(m.lost))
    ensures r.Bound? ==> r.b.separate == separate
    ensures KeptPlumbing(m.nm, old(m.disk), old(m.kern), m.kern, {q.iface})
    ensures old(m.faults) <= m.faults && (m.faults == old(m.faults) ==> FaultlessBind(m, old(m.kern), q, gateway, r))
    ensures r.Refused? ==> r.why == NotSaved
  {
    ghost var r0, k0 := m.disk, m.kern;
    var saved := RecordRequest(m, st, q, n);
    if !saved { return Refused(NotSaved); }
    r := BindOrUndo(m, st, q, n, gateway, separate, r0);
    RequestKeepsOthers(m.nm, r0, q, n, k0, m.kern);
  }

  lemma MoreSpaces(procs: seq<Proc>, spaces: set<Hash>, more: set<Hash>, h: Hash)
    requires spaces <= more
    ensures SpaceOf(procs, spaces, h, None) <= SpaceOf(procs, more, h, None)
  {
  }

  lemma RequestKeepsOthers(nm: Naming, r: Saved, q: Request, n: nat, k0: Kernel, k: Kernel)
    ensures KeptPlumbing(nm, Requested(r, q, n), k0, k, {q.iface}) ==> KeptPlumbing(nm, r, k0, k, {q.iface})
  {
  }

  method EditRequest(st: State, q: Request, n: nat)
    modifies st
    ensures st.Rec() == Requested(old(st.Rec()), q, n)
  {
    var r1 := Requested(st.Rec(), q, n);
    st.dns, st.limits, st.subnets := r1.dns, r1.limits, r1.subnets;
  }

  method RecordRequest(m: Host, st: State, q: Request, n: nat) returns (ok: bool)
    requires m.Valid() && q.iface in m.nm.known && CheckedRequest(m.nm.lib, q) && st.Rec() == m.disk
    requires Proper(q.foreign) && 1 <= n <= 254 && Fresh(m.disk, q.iface, q.foreign, n)
    modifies m`disk, m`dead, m`trace, m`faults, st
    ensures m.Valid() && old(m.trace) <= m.trace
    ensures m.disk == if ok then Requested(old(m.disk), q, n) else old(m.disk)
    ensures ok ==> st.Rec() == m.disk && Recorded(m.disk, q.iface, n)
    ensures m.faults == old(m.faults) + if ok then 0 else 1
  {
    m.Now();
    RequestedInv(m.nm, m.disk, q, n, m.kern, m.lost);
    EditRequest(st, q, n);
    ok := m.Save(st);
  }

  /** bind. */
  method Bind(m: Host, q: Request) returns (r: BindResult)
    requires m.Valid() && q.iface in m.nm.known && CheckedRequest(m.nm.lib, q) && Proper(q.foreign)
    modifies m
    ensures m.Valid() && old(m.trace) <= m.trace
    ensures SignalledOnly(old(m.procs), q.uid, old(m.signalled), m.signalled)
    ensures BindOutcome(m, old(m.disk), old(m.kern), q,
                        if q.iface in old(m.links) then old(m.links)[q.iface].gateway else None, r, old(m.lost))
    ensures r.Bound? ==>
              (r.b.separate <==> q.keepSeparate || (q.policy == Separate && old(RunningNow(m, q)) != iset{}))
    ensures BindRecord(m.nm, old(m.disk), m.disk, q, r)
    ensures (q.iface in old(m.links) && old(m.links)[q.iface].bindable) ==>
              Closes(m, q, old(m.procs), old(RunningNow(m, q)), old(m.signalled), old(m.left))
    ensures !(q.iface in old(m.links) && old(m.links)[q.iface].bindable) || q.policy != Close ==>
              m.signalled == old(m.signalled) && m.left == old(m.left)
    ensures KeptPlumbing(m.nm, old(m.disk), old(m.kern), m.kern, {q.iface})
    ensures r.Bound? || r.Failed? ==> q.iface in old(m.links) && old(m.links)[q.iface].bindable
    ensures old(m.faults) <= m.faults
    ensures m.faults == old(m.faults) ==>
              FaultlessBind(m, old(m.kern), q,
                            if q.iface in old(m.links) then old(m.links)[q.iface].gateway else None, r)
    ensures RefusedFor(old(m.links), old(m.disk), q, old(RunningNow(m, q)), m.left, r)
  {
    if q.iface !in m.links { return Refused(NoInterface); }
    if !m.links[q.iface].bindable { return Refused(NotBindable); }
    var gateway := m.links[q.iface].gateway;
    ghost var r0, k0, l0 := m.disk, m.kern, m.lost;
    r := BindOn(m, q, gateway);
    BindRecordIs(m, r0, k0, q, gateway, r, l0);
  }

  method BindOn(m: Host, q: Request, gateway: Option<string>) returns (r: BindResult)
    requires m.Valid() && q.iface in m.nm.known && CheckedRequest(m.nm.lib, q) && Proper(q.foreign)
    requires q.iface in m.links && m.links[q.iface].bindable
    modifies m`disk, m`kern, m`dead, m`trace, m`faults, m`procs, m`lost, m`signalled, m`left
    ensures m.Valid() && old(m.trace) <= m.trace
    ensures SignalledOnly(old(m.procs), q.uid, old(m.signalled), m.signalled)
    ensures BindOutcome(m, old(m.disk), old(m.kern), q, gateway, r, old(m.lost))
    ensures r.Bound? ==>
              (r.b.separate <==> q.keepSeparate || (q.policy == Separate && old(RunningNow(m, q)) != iset{}))
    ensures Closes(m, q, old(m.procs), old(RunningNow(m, q)), old(m.signalled), old(m.left))
    ensures KeptPlumbing(m.nm, old(m.disk), old(m.kern), m.kern, {q.iface})
    ensures old(m.faults) <= m.faults && (m.faults == old(m.faults) ==> FaultlessBind(m, old(m.kern), q, gateway, r))
    ensures RefusedFor(old(m.links), old(m.disk), q, old(RunningNow(m, q)), m.left, r)
  {
    var st := m.Load();
    var why, separate := CheckRunning(m, st.bindings, q);
    if why.Some? { return Refused(why.value); }
    r := BindChosen(m, st, q, gateway, separate);
  }

  /** Bind from the choice of the subnet on. */
  method BindChosen(m: Host, st: State, q: Request, gateway: Option<string>, separate: bool) returns (r: BindResult)
    requires m.Valid() && q.iface in m.nm.known && CheckedRequest(m.nm.lib, q) && st.Rec() == m.disk
    requires ProfileOf(q, separate) && Proper(q.foreign)
    modifies m`disk, m`kern, m`dead, m`trace, m`faults, m`procs, m`lost, st
    ensures m.Valid() && old(m.trace) <= m.trace
    ensures BindOutcome(m, old(m.disk), old(m.kern), q, gateway, r, old(m.lost))
    ensures r.Bound? ==> r.b.separate == separate
    ensures KeptPlumbing(m.nm, old(m.disk), old(m.kern), m.kern, {q.iface})
    ensures old(m.faults) <= m.faults && (m.faults == old(m.faults) ==> FaultlessBind(m, old(m.kern), q, gateway, r))
    ensures if NoneFree(old(m.disk), q.iface, q.foreign) then r == Refused(NoSubnet)
            else r.Refused? ==> r.why == NotSaved
  {
    m.Now();
    var n := ChooseSubnet(m.nm, st.Rec(), q.iface, q.foreign);
    if n == None { return Refused(NoSubnet); }
    r := BindRecorded(m, st, q, n.value, gateway, separate);
  }
}
