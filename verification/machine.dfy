/** The host an action runs on: the saved record, the kernel and the processes, changed one command at a
    time. Every command may fail, and the program may die at any of them. */
module Machine {
  import opened Basics
  import opened Subnets
  import opened Firewall
  import opened Routing
  import opened Adopt
  import opened Procs
  import opened Record

  /** What `ip` tells about an interface of the host. */
  datatype Link = Link(bindable: bool, gateway: Option<string>, cidrs: seq<Net>)

  function SetTable(k: Kernel, n: nat, t: Routing.Table): Kernel { k.(tables := k.tables[n := t]) }

  /** Nothing differs but the contents of one route table. */
  ghost predicate OnlyTable(k: Kernel, k': Kernel, n: nat) {
    k' == k.(tables := k'.tables) && forall m | m != n :: TableAt(k'.tables, m) == TableAt(k.tables, m)
  }

  /** The kernel takes every route of a device that went down out of every table. */
  function Dropped(k: Kernel, dev: string): Kernel {
    k.(tables := map n | n in k.tables :: DropDevice(k.tables[n], dev),
       slots := seq(201, i requires 0 <= i < 201 => k.slots[i].(table := DropDevice(k.slots[i].table, dev))))
  }

  class Host {
    const nm: Naming
    const me: Pid
    /** The process names of an application (apps.get_handler(app).comm_names). */
    const comm: string -> set<string>
    var disk: Saved
    var kern: Kernel
    var procs: seq<Proc>
    var links: map<string, Link>
    /** The program died during the current action: no further command has an effect. */
    var dead: bool
    /** Pids signalled so far. */
    var signalled: seq<Pid>
    /** Who was still alive at the end of the last wait. */
    ghost var left: seq<Pid>
    /** Removals that failed while the program went on as if they had not, since record and kernel last
        agreed. */
    ghost var lost: nat
    /** Steps of undoing an adoption that failed while the program went on. */
    ghost var stuck: nat
    /** Commands so far that did not take effect. */
    ghost var faults: nat
    /** Every (record, kernel) pair the host went through, step by step. */
    ghost var trace: seq<World>

    /** Inv holds now and held at every step before. */
    ghost predicate Valid()
      reads this
    {
      CollisionFree(nm) && forall w | w in trace + [World(disk, kern, lost)] :: Inv(nm, w)
    }

    lemma Now()
      requires Valid()
      ensures Inv(nm, World(disk, kern, lost))
    {
    }

    /** A host whose record covers its kernel; EMPTY for one InterMux has never run on. */
    constructor (nm: Naming, me: Pid, comm: string -> set<string>, r: Saved, k: Kernel)
      requires CollisionFree(nm) && Inv(nm, World(r, k, 0))
      ensures Valid() && disk == r && kern == k && lost == stuck == 0 && !dead && trace == [] && faults == 0
      ensures this.nm == nm && this.me == me && this.comm == comm
    {
      this.comm := comm;
      this.nm, this.me, disk, kern, procs, links, dead, signalled := nm, me, r, k, [], map[], false, [];
      lost, stuck, trace, faults := 0, 0, [], 0;
    }

    // ------------------------------------------------------------ one step

    /** Run a command whose effect on the kernel is `next`; nothing happens when it fails. */
    method Run(next: Kernel) returns (ok: bool)
      modifies this`kern, this`dead, this`trace, this`faults
      ensures ok ==> !old(dead) && !dead && kern == next
      ensures !ok ==> kern == old(kern)
      ensures dead ==> !ok
      ensures old(dead) ==> dead
      ensures trace == if old(dead) then old(trace) else old(trace) + [World(disk, kern, lost)]
      ensures old(Valid()) && Inv(nm, World(disk, next, lost)) ==> Valid()
      ensures faults == old(faults) + if ok then 0 else 1
    {
      if dead {
        faults := faults + 1;
        return false;
      }
      ok := *;
      if ok {
        kern := next;
      } else {
        dead := *;
        faults := faults + 1;
      }
      trace := trace + [World(disk, kern, lost)];
    }

    /** Run a removal whose failure the program does not look at. `cut` is false only if it mattered. */
    method RunUnchecked(next: Kernel) returns (ghost cut: bool)
      modifies this`kern, this`dead, this`trace, this`faults, this`lost
      ensures kern == if cut then next else old(kern)
      ensures !cut ==> dead || lost > old(lost)
      ensures old(lost) <= lost
      ensures old(dead) ==> dead
      ensures old(trace) <= trace
      ensures old(Valid()) && Inv(nm, World(disk, next, old(lost))) ==> Valid()
      ensures old(faults) <= faults && (faults == old(faults) ==> cut && lost == old(lost))
    {
      var ok := Run(next);
      cut := ok || kern == next;
      if Valid() {
        Now();
      }
      lost := lost + if cut || dead then 0 else 1;
    }

    /** save_state: the file is replaced as a whole or not at all. */
    method Save(st: State) returns (ok: bool)
      modifies this`disk, this`dead, this`trace, this`faults
      ensures disk == if ok then st.Rec() else old(disk)
      ensures dead ==> !ok
      ensures old(dead) ==> dead
      ensures ok ==> !old(dead)
      ensures trace == if old(dead) then old(trace) else old(trace) + [World(disk, kern, lost)]
      ensures old(Valid()) && (!old(dead) ==> Inv(nm, World(st.Rec(), kern, lost))) ==> Valid()
      ensures faults == old(faults) + if ok then 0 else 1
    {
      if dead {
        faults := faults + 1;
        return false;
      }
      ok := *;
      if ok {
        disk := st.Rec();
      } else {
        dead := *;
        faults := faults + 1;
      }
      trace := trace + [World(disk, kern, lost)];
    }

    method Load() returns (st: State)
      ensures fresh(st) && st.Rec() == disk
    {
      st := new State(disk);
    }

    /** The program goes on after a teardown that raised. */
    ghost method Swallow(ok: bool)
      modifies this`lost
      ensures lost == old(lost) + if ok || dead then 0 else 1
      ensures old(Valid()) ==> Valid()
    {
      if Valid() {
        Now();
      }
      lost := lost + if ok || dead then 0 else 1;
    }

    /** Between actions: processes and links change at will, so do the members of cgroups as processes exit and
        fork, and a dead program is started again. */
    method Settle(dev: string)
      requires Valid()
      modifies this`procs, this`links, this`kern, this`dead, this`trace, this`faults, this`lost
      ensures Valid() && disk == old(disk) && !dead && old(trace) <= trace
      ensures kern == Dropped(old(kern), dev).(groups := kern.groups)
      ensures lost == if Covered(nm, disk, kern) then 0 else old(lost)
    {
      Now();
      procs, links, dead := *, *, false;
      var groups: map<string, set<Pid>> := *;
      SettledInv(nm, disk, kern, lost, dev, groups);
      kern := Dropped(kern, dev).(groups := groups);
      lost := if Covered(nm, disk, kern) then 0 else lost;
      trace := trace + [World(disk, kern, lost)];
    }

    /** A command without effect on anything modelled here. */
    method Other() returns (ok: bool)
      requires Valid()
      modifies this`dead, this`trace, this`faults
      ensures Valid() && old(trace) <= trace && (old(dead) ==> dead) && (dead ==> !ok)
      ensures faults == old(faults) + if ok then 0 else 1
    {
      if dead {
        faults := faults + 1;
        return false;
      }
      ok := *;
      if !ok {
        dead := *;
        faults := faults + 1;
      }
      trace := trace + [World(disk, kern, lost)];
    }

    // ------------------------------------------------------------ processes

    function PidsIn(h: Hash): set<Pid>
      reads this`procs, this`kern
    {
      SpaceOf(procs, kern.namespaces, h, None)
    }

    predicate Busy(h: Hash)
      reads this`procs, this`kern
    {
      PidsIn(h) != {}
    }

    predicate Alive(p: Pid)
      reads this`procs
    {
      exists q | q in procs :: q.pid == p
    }

    /** terminate: SIGTERM to every target once, SIGKILL to survivors when forced; whoever is left is reported. */
    method Terminate(pids: seq<Pid>, force: bool) returns (survivors: seq<Pid>, ghost killed: seq<Pid>)
      modifies this`procs, this`signalled, this`left
      ensures signalled == old(signalled) + (Targets(pids, me) + killed)
      ensures (killed != [] ==> force) && forall p | p in killed :: p in Targets(pids, me)
      ensures NoDup(survivors) && left == survivors && forall p | p in survivors :: p in Targets(pids, me) && Alive(p)
      ensures if force then forall p | p in survivors :: p in killed
              else forall p | p in Targets(pids, me) && Alive(p) :: p in survivors
    {
      var targets: seq<Pid> := [];
      for i := 0 to |pids|
        invariant signalled == old(signalled) && procs == old(procs)
        invariant targets == Targets(pids[..i], me)
      {
        assert pids[..i + 1][..i] == pids[..i];
        if pids[i] > 1 && pids[i] != me && pids[i] !in targets {
          targets := targets + [pids[i]];
        }
      }
      assert pids[..|pids|] == pids;
      survivors := Signal(targets);
      killed := [];
      if survivors != [] && force {
        killed := survivors;
        survivors := Signal(survivors);
      }
    }

    /** One signal to each of these, and a wait for those still listed after it. */
    method Signal(pids: seq<Pid>) returns (alive: seq<Pid>)
      requires NoDup(pids)
      modifies this`procs, this`signalled, this`left
      ensures signalled == old(signalled) + pids && NoDup(alive) && left == alive
      ensures forall p :: p in alive <==> p in pids && Alive(p)
    {
      procs := *;
      signalled := signalled + pids;
      var there := set q | q in procs :: q.pid;
      alive := Filter(pids, (p: Pid) => p in there);
      FilterNoDup(pids, (p: Pid) => p in there);
      left := alive;
    }

    // ------------------------------------------------------------ building plumbing

    method EnsureNamespace(h: Hash) returns (ok: bool)
      requires Valid() && h in Names(nm, disk)
      modifies this`kern, this`dead, this`trace, this`faults
      ensures Valid() && old(trace) <= trace && (old(dead) ==> dead)
      ensures ok ==> kern == old(kern).(namespaces := old(kern).namespaces + {h})
      ensures !ok ==> kern == old(kern)
      ensures ok && dead ==> kern == old(kern)
      ensures old(faults) <= faults && (faults == old(faults) ==> ok)
    {
      Now();
      if h in kern.namespaces {
        assert kern.namespaces == kern.namespaces + {h};
        return true;
      }
      ok := Run(kern.(namespaces := kern.namespaces + {h}));
    }

    /** Create the pair if it is missing, then move and address it. */
    method EnsureVeth(h: Hash) returns (ok: bool)
      requires Valid() && h in Names(nm, disk)
      modifies this`kern, this`dead, this`trace, this`faults
      ensures Valid() && old(trace) <= trace && (old(dead) ==> dead)
      ensures kern == old(kern) || kern == old(kern).(veths := old(kern).veths + {h})
      ensures ok ==> !dead && kern == old(kern).(veths := old(kern).veths + {h})
      ensures old(faults) <= faults && (faults == old(faults) ==> ok)
    {
      Now();
      if h !in kern.veths {
        ok := Run(kern.(veths := kern.veths + {h}));
        if !ok { return; }
      }
      assert kern.veths == old(kern).veths + {h} ;
      ok := Run(kern);
    }

    /** ensure_nat: each of the three rules is added unless iptables -C finds it. */
    method EnsureNat(n: nat, iface: string) returns (ok: bool)
      requires Valid() && Recorded(disk, iface, n)
      modifies this`kern, this`dead, this`trace, this`faults
      ensures Valid() && old(trace) <= trace && (old(dead) ==> dead)
      ensures kern == old(kern).(chains := kern.chains)
      ensures ok ==> kern.chains == Firewall.EnsureNat(old(kern).chains, PoolNet(n), iface)
      ensures forall j, m | m != n :: NatOf(kern.chains, j, m) == NatOf(old(kern).chains, j, m)
      ensures old(faults) <= faults && (faults == old(faults) ==> ok)
    {
      var rules := NatRules(PoolNet(n), iface);
      for i := 0 to 3
        invariant faults == old(faults)
        invariant Valid() && old(trace) <= trace && (old(dead) ==> dead)
        invariant kern == old(kern).(chains := Applied(old(kern).chains, rules[..i]))
        invariant forall j, m | m != n :: NatOf(kern.chains, j, m) == NatOf(old(kern).chains, j, m)
      {
        var rule := rules[i];
        AppliedNext(old(kern).chains, rules, i);
        RuleSparesOthers(kern.chains, iface, n, rule);
        if !HasRule(kern.chains, rule) {
          NatRuleKeepsInv(nm, disk, kern, iface, n, rule, lost);
          ok := Run(kern.(chains := ApplyRule(kern.chains, rule)));
          if !ok { return; }
        }
      }
      ok := true;
      AppliedAll(old(kern).chains, PoolNet(n), iface);
      assert rules[..3] == rules;
    }

    /** ensure_policy: replace the wanted routes, list, delete the strays (a failing delete is passed over),
        then add the from-rule unless it is listed. */
    method EnsurePolicy(n: nat, p: Policy) returns (ok: bool)
      requires Valid() && n in disk.subnets.Values && p.subnet == PoolNet(n)
      modifies this`kern, this`dead, this`trace, this`faults
      ensures Valid() && old(trace) <= trace && (old(dead) ==> dead)
      ensures kern == old(kern).(tables := kern.tables, rules := kern.rules)
      ensures kern.rules == old(kern).rules || kern.rules == old(kern).rules + {OwnRule(n)}
      ensures forall m | m != NetTable(n) :: TableAt(kern.tables, m) == TableAt(old(kern).tables, m)
      ensures TrailSince(trace, |old(trace)|, NetTable(n), TableAt(old(kern).tables, NetTable(n)), p)
      ensures OnTrail(TableAt(old(kern).tables, NetTable(n)), p, TableAt(kern.tables, NetTable(n)))
      ensures ok ==> OwnRule(n) in kern.rules
                     && ReplaceAll(TableAt(old(kern).tables, NetTable(n)), Replacements(p)).Some?
                     && Cleaned(ReplaceAll(TableAt(old(kern).tables, NetTable(n)), Replacements(p)).value, p,
                                TableAt(kern.tables, NetTable(n)))
      ensures old(faults) <= faults && (faults == old(faults) ==>
                 (ok <==> ReplaceAll(TableAt(old(kern).tables, NetTable(n)), Replacements(p)).Some?))
      ensures ok && faults == old(faults) ==>
                Some(TableAt(kern.tables, NetTable(n))) == Ensured(TableAt(old(kern).tables, NetTable(n)), p)
      ensures ExactIfOwn(nm, kern, n, p, ok, faults == old(faults))
    {
      Now();
      ghost var t0 := TableAt(kern.tables, NetTable(n));
      ok := ReplaceRoutes(n, p);
      if ok {
        DeleteStrays(n, p, t0);
        ok := AddRule(n, t0, p, |old(trace)|);
      }
      if nm.ownTables && p.veth.Some? {
        TrailKeepsShape(t0, p, TableAt(kern.tables, NetTable(n)));
      }
    }

    method AddRule(n: nat, ghost t0: Routing.Table, ghost p: Policy, ghost from: nat) returns (ok: bool)
      requires Valid() && n in disk.subnets.Values && TrailSince(trace, from, NetTable(n), t0, p)
      requires OnTrail(t0, p, TableAt(kern.tables, NetTable(n)))
      modifies this`kern, this`dead, this`trace, this`faults
      ensures Valid() && old(trace) <= trace && (old(dead) ==> dead)
      ensures kern == old(kern) || kern == old(kern).(rules := old(kern).rules + {OwnRule(n)})
      ensures ok ==> OwnRule(n) in kern.rules
      ensures TrailSince(trace, from, NetTable(n), t0, p)
      ensures old(faults) <= faults && (faults == old(faults) ==> ok)
    {
      ok := true;
      if OwnRule(n) !in kern.rules {
        Now();
        ok := Run(kern.(rules := kern.rules + {OwnRule(n)}));
      }
    }

    /** One `ip route` command on the table of namespace n; `t0` is what the table held when ensure_policy
        began, and `from` the position of the trace then. */
    method SetRoutes(n: nat, u: Routing.Table, ghost t0: Routing.Table, ghost p: Policy, ghost from: nat)
      returns (ok: bool)
      requires Valid() && NoDup(u) && TrailSince(trace, from, NetTable(n), t0, p)
      requires nm.ownTables ==> Shape(u, Some(PoolNet(n)))
      requires OnTrail(t0, p, u) && OnTrail(t0, p, TableAt(kern.tables, NetTable(n)))
      modifies this`kern, this`dead, this`trace, this`faults
      ensures Valid() && old(trace) <= trace && (old(dead) ==> dead) && (dead ==> !ok)
      ensures OnlyTable(old(kern), kern, NetTable(n))
      ensures TableAt(kern.tables, NetTable(n)) == if ok then u else TableAt(old(kern).tables, NetTable(n))
      ensures TrailSince(trace, from, NetTable(n), t0, p)
      ensures faults == old(faults) + if ok then 0 else 1
    {
      Now();
      ok := Run(SetTable(kern, NetTable(n), u));
    }

    method ReplaceRoutes(n: nat, p: Policy) returns (ok: bool)
      requires Valid() && 1 <= n <= 254 && p.subnet == PoolNet(n)
      modifies this`kern, this`dead, this`trace, this`faults
      ensures Valid() && old(trace) <= trace && (old(dead) ==> dead)
      ensures OnlyTable(old(kern), kern, NetTable(n))
      ensures TrailSince(trace, |old(trace)|, NetTable(n), TableAt(old(kern).tables, NetTable(n)), p)
      ensures OnTrail(TableAt(old(kern).tables, NetTable(n)), p, TableAt(kern.tables, NetTable(n)))
      ensures ok ==> ReplaceAll(TableAt(old(kern).tables, NetTable(n)), Replacements(p))
                     == Some(TableAt(kern.tables, NetTable(n)))
      ensures old(faults) <= faults && (faults == old(faults) ==>
                 (ok <==> ReplaceAll(TableAt(old(kern).tables, NetTable(n)), Replacements(p)).Some?))
    {
      Now();
      ghost var t0 := TableAt(kern.tables, NetTable(n));
      var rs := Replacements(p);
      for i := 0 to |rs|
        invariant faults == old(faults)
        invariant Valid() && old(trace) <= trace && (old(dead) ==> dead)
        invariant OnlyTable(old(kern), kern, NetTable(n))
        invariant TrailSince(trace, |old(trace)|, NetTable(n), t0, p)
        invariant ReplaceAll(t0, rs[..i]) == Some(TableAt(kern.tables, NetTable(n)))
      {
        var t := TableAt(kern.tables, NetTable(n));
        var u := Replace(t, rs[i]);
        ReplaceOneMore(t0, rs, i);
        if u == None {
          PrefixDecides(t0, rs, i + 1);
          return false;
        }
        Now();
        assert NoDup(t);
        ReplaceEffect(t, rs[i], rs[i]);
        if nm.ownTables {
          ReplaceKeepsShape(t, Some(PoolNet(n)), rs[i]);
        }
        assert OnTrail(t0, p, t) && OnTrail(t0, p, u.value);
        ok := SetRoutes(n, u.value, t0, p, |old(trace)|);
        if !ok { return; }
      }
      ok := true;
      assert rs[..|rs|] == rs;
    }

    method DeleteStrays(n: nat, p: Policy, ghost t0: Routing.Table)
      requires Valid() && 1 <= n <= 254 && ReplaceAll(t0, Replacements(p)) == Some(TableAt(kern.tables, NetTable(n)))
      modifies this`kern, this`dead, this`trace, this`faults
      ensures Valid() && old(trace) <= trace && (old(dead) ==> dead)
      ensures OnlyTable(old(kern), kern, NetTable(n))
      ensures Cleaned(TableAt(old(kern).tables, NetTable(n)), p, TableAt(kern.tables, NetTable(n)))
      ensures TrailSince(trace, |old(trace)|, NetTable(n), t0, p)
      ensures old(faults) <= faults
      ensures faults == old(faults) ==>
                var full := TableAt(old(kern).tables, NetTable(n));
                TableAt(kern.tables, NetTable(n)) == DeleteSome(full, Strays(full, p), AllOk(|Strays(full, p)|))
    {
      ghost var full := TableAt(kern.tables, NetTable(n));
      var strays := Strays(TableAt(kern.tables, NetTable(n)), p);
      ghost var oks: seq<bool> := [];
      CleanedStart(full, p);
      for i := 0 to |strays|
        invariant old(faults) <= faults && (faults == old(faults) ==> AllTrue(oks))
        invariant Valid() && old(trace) <= trace && (old(dead) ==> dead)
        invariant OnlyTable(old(kern), kern, NetTable(n))
        invariant |oks| == i && TableAt(kern.tables, NetTable(n)) == DeleteSome(full, strays[..i], oks)
        invariant Cleaned(full, p, TableAt(kern.tables, NetTable(n)))
        invariant TrailSince(trace, |old(trace)|, NetTable(n), t0, p)
      {
        oks := DeleteStray(n, p, strays, i, t0, full, oks, |old(trace)|);
      }
      AllDeleted(full, strays, oks);
    }

    method DeleteStray(n: nat, p: Policy, strays: seq<Route>, i: nat, ghost t0: Routing.Table,
                       ghost full: Routing.Table, ghost oks: seq<bool>, ghost from: nat) returns (ghost oks': seq<bool>)
      requires Valid() && 1 <= n <= 254 && ReplaceAll(t0, Replacements(p)) == Some(full)
      requires strays == Strays(full, p) && i < |strays|
      requires |oks| == i && TableAt(kern.tables, NetTable(n)) == DeleteSome(full, strays[..i], oks)
      requires Cleaned(full, p, TableAt(kern.tables, NetTable(n))) && TrailSince(trace, from, NetTable(n), t0, p)
      modifies this`kern, this`dead, this`trace, this`faults
      ensures Valid() && old(trace) <= trace && (old(dead) ==> dead)
      ensures OnlyTable(old(kern), kern, NetTable(n))
      ensures |oks'| == i + 1 && TableAt(kern.tables, NetTable(n)) == DeleteSome(full, strays[..i + 1], oks')
      ensures Cleaned(full, p, TableAt(kern.tables, NetTable(n))) && TrailSince(trace, from, NetTable(n), t0, p)
      ensures old(faults) <= faults && (faults == old(faults) && AllTrue(oks) ==> AllTrue(oks'))
    {
      Now();
      var t := TableAt(kern.tables, NetTable(n));
      DeleteNoDup(t, strays[i]);
      if nm.ownTables {
        DeleteKeepsShape(t, Some(PoolNet(n)), strays[i]);
      }
      CleanedNext(full, p, i, oks, true);
      CleanedNext(full, p, i, oks, false);
      var ok := SetRoutes(n, Routing.Delete(t, strays[i]), t0, p, from);
      oks' := oks + [ok];
      AllTrueNext(oks, ok);
    }

    // ------------------------------------------------------------ tearing plumbing down

    /** _teardown_plumbing: every step is attempted; NAT and rule deletes are not looked at, a failing flush,
        untrust_veth, link or namespace delete, or _remove_tmpdirs is reported at the end. `cuts` says what
        went. */
    method TeardownPlumbing(iface: string, n: nat, h: Hash) returns (ok: bool, ghost cuts: Cuts)
      requires Valid()
      modifies this`kern, this`dead, this`trace, this`faults, this`lost
      ensures Valid() && old(trace) <= trace && (old(dead) ==> dead) && old(lost) <= lost
      ensures kern == Unplumb(old(kern), iface, n, h, cuts)
      ensures ok ==> !dead
      ensures ok && lost == old(lost) ==> cuts == ALL_CUTS
      ensures old(faults) <= faults && (faults == old(faults) ==> ok && cuts == ALL_CUTS && lost == old(lost))
    {
      Now();
      ghost var k := kern;
      cuts := RemoveNat(iface, n, h);
      cuts, ok := RemovePolicy(k, iface, n, h, cuts);
      var untrusted := Other();
      var gone;
      cuts, gone := RemoveSpace(k, iface, n, h, cuts);
      var cleared := Other();
      ok := ok && untrusted && gone && cleared;
    }

    /** One more removal of a teardown whose failure is not looked at. */
    method CutUnchecked(ghost k: Kernel, iface: string, n: nat, h: Hash, ghost before: Cuts, ghost after: Cuts,
                        next: Kernel)
      returns (ghost cuts: Cuts)
      requires Valid() && Inv(nm, World(disk, k, lost))
      requires kern == Unplumb(k, iface, n, h, before) && next == Unplumb(k, iface, n, h, after)
      modifies this`kern, this`dead, this`trace, this`faults, this`lost
      ensures Valid() && old(trace) <= trace && (old(dead) ==> dead) && old(lost) <= lost
      ensures Inv(nm, World(disk, k, lost)) && kern == Unplumb(k, iface, n, h, cuts)
      ensures cuts == before || cuts == after
      ensures !dead && lost == old(lost) ==> cuts == after
      ensures old(faults) <= faults && (faults == old(faults) ==> cuts == after && lost == old(lost))
    {
      UnplumbKeepsInv(nm, disk, k, iface, n, h, after, lost);
      ghost var cut := RunUnchecked(next);
      cuts := if cut then after else before;
    }

    /** One more removal of a teardown whose failure is reported. */
    method Cut(ghost k: Kernel, iface: string, n: nat, h: Hash, ghost before: Cuts, ghost after: Cuts, next: Kernel)
      returns (ok: bool)
      requires Valid() && Inv(nm, World(disk, k, lost))
      requires kern == Unplumb(k, iface, n, h, before) && next == Unplumb(k, iface, n, h, after)
      modifies this`kern, this`dead, this`trace, this`faults
      ensures Valid() && old(trace) <= trace && (old(dead) ==> dead) && (ok ==> !dead)
      ensures kern == Unplumb(k, iface, n, h, if ok then after else before)
      ensures faults == old(faults) + if ok then 0 else 1
    {
      UnplumbKeepsInv(nm, disk, k, iface, n, h, after, lost);
      ok := Run(next);
    }

    /** delete_veth and delete_namespace, the second whatever the first did. */
    method RemoveSpace(ghost k: Kernel, iface: string, n: nat, h: Hash, ghost before: Cuts)
      returns (ghost cuts: Cuts, ok: bool)
      requires Valid() && kern == Unplumb(k, iface, n, h, before) && !before.veth && !before.ns
      requires Inv(nm, World(disk, k, lost))
      modifies this`kern, this`dead, this`trace, this`faults
      ensures Valid() && old(trace) <= trace && (old(dead) ==> dead)
      ensures kern == Unplumb(k, iface, n, h, cuts)
      ensures cuts == before.(veth := cuts.veth, ns := cuts.ns)
      ensures ok ==> !dead && cuts.veth && cuts.ns
      ensures old(faults) <= faults && (faults == old(faults) ==> ok)
    {
      OneMoreCut(k, iface, n, h, before);
      OneMoreCut(k, iface, n, h, before.(veth := true));
      var vethGone := Cut(k, iface, n, h, before, before.(veth := true), kern.(veths := kern.veths - {h}));
      cuts := before.(veth := vethGone);
      var nsGone := Cut(k, iface, n, h, cuts, cuts.(ns := true), kern.(namespaces := kern.namespaces - {h}));
      cuts := cuts.(ns := nsGone);
      ok := vethGone && nsGone;
    }

    method RemoveNat(iface: string, n: nat, h: Hash) returns (ghost cuts: Cuts)
      requires Valid()
      modifies this`kern, this`dead, this`trace, this`faults, this`lost
      ensures Valid() && old(trace) <= trace && (old(dead) ==> dead) && old(lost) <= lost
      ensures kern == Unplumb(old(kern), iface, n, h, cuts)
      ensures cuts == NO_CUTS.(masq := cuts.masq, out := cuts.out, back := cuts.back)
      ensures !dead && lost == old(lost) ==> cuts.masq && cuts.out && cuts.back
      ensures old(faults) <= faults
      ensures faults == old(faults) ==> cuts.masq && cuts.out && cuts.back && lost == old(lost)
    {
      Now();
      ghost var k := kern;
      var rules := NatRules(PoolNet(n), iface);
      cuts := CutUnchecked(k, iface, n, h, NO_CUTS, NO_CUTS.(masq := true),
          kern.(chains := DropRule(kern.chains, rules[0])));
      cuts := CutUnchecked(k, iface, n, h, cuts, cuts.(out := true), kern.(chains := DropRule(kern.chains, rules[1])));
      cuts := CutUnchecked(k, iface, n, h, cuts, cuts.(back := true), kern.(chains := DropRule(kern.chains, rules[2])));
    }

    method CutRule(ghost k: Kernel, iface: string, n: nat, h: Hash, ghost before: Cuts) returns (ghost cuts: Cuts)
      requires Valid() && kern == Unplumb(k, iface, n, h, before) && !before.rule && Inv(nm, World(disk, k, lost))
      modifies this`kern, this`dead, this`trace, this`faults, this`lost
      ensures Valid() && old(trace) <= trace && (old(dead) ==> dead) && old(lost) <= lost
      ensures Inv(nm, World(disk, k, lost)) && kern == Unplumb(k, iface, n, h, cuts)
      ensures cuts == before.(rule := cuts.rule) && (!dead && lost == old(lost) ==> cuts.rule)
      ensures old(faults) <= faults && (faults == old(faults) ==> cuts.rule && lost == old(lost))
    {
      OneMoreCut(k, iface, n, h, before);
      cuts := CutUnchecked(k, iface, n, h, before, before.(rule := true), kern.(rules := kern.rules - {OwnRule(n)}));
    }

    method CutTable(ghost k: Kernel, iface: string, n: nat, h: Hash, ghost before: Cuts) returns (ok: bool)
      requires Valid() && kern == Unplumb(k, iface, n, h, before) && !before.table && Inv(nm, World(disk, k, lost))
      modifies this`kern, this`dead, this`trace, this`faults
      ensures Valid() && old(trace) <= trace && (old(dead) ==> dead) && (ok ==> !dead)
      ensures kern == Unplumb(k, iface, n, h, before.(table := ok))
      ensures faults == old(faults) + if ok then 0 else 1
    {
      OneMoreCut(k, iface, n, h, before);
      ok := Cut(k, iface, n, h, before, before.(table := true), kern.(tables := kern.tables - {NetTable(n)}));
    }

    /** remove_policy: the rule delete is not looked at, a failing flush is reported. */
    method RemovePolicy(ghost k: Kernel, iface: string, n: nat, h: Hash, ghost before: Cuts)
      returns (ghost cuts: Cuts, ok: bool)
      requires Valid() && kern == Unplumb(k, iface, n, h, before) && !before.rule && !before.table
      requires Inv(nm, World(disk, k, lost))
      modifies this`kern, this`dead, this`trace, this`faults, this`lost
      ensures Valid() && old(trace) <= trace && (old(dead) ==> dead) && old(lost) <= lost
      ensures Inv(nm, World(disk, k, lost))
      ensures kern == Unplumb(k, iface, n, h, cuts)
      ensures cuts == before.(rule := cuts.rule, table := cuts.table)
      ensures !dead && lost == old(lost) ==> cuts.rule
      ensures ok ==> cuts.table
      ensures old(faults) <= faults && (faults == old(faults) ==> ok && cuts.rule && lost == old(lost))
    {
      cuts := CutRule(k, iface, n, h, before);
      ok := CutTable(k, iface, n, h, cuts);
      cuts := cuts.(table := ok);
    }

    // ------------------------------------------------------------ adoptions
    //
    // `from` is a position of the trace: the methods say that when the marking order held at every step from
    // there on, it still does.

    /** One command on a slot. */
    method RunSlot(slot: nat, st: SlotState, ghost from: nat) returns (ok: bool)
      requires Valid() && IsSlot(slot) && NoDup(st.table) && (nm.ownTables ==> Shape(st.table, None))
      requires st.nft.Some? && st.nft != kern.slots[slot].nft ==> GroupFree(kern, slot, st.nft.value.group)
      modifies this`kern, this`dead, this`trace, this`faults
      ensures Valid() && (old(dead) ==> dead) && (dead ==> !ok)
      ensures kern == if ok then old(kern).(slots := old(kern).slots[slot := st]) else old(kern)
      ensures trace == if old(dead) then old(trace) else old(trace) + [World(disk, kern, lost)]
      ensures ArmedSince(old(trace), from, slot) && Armed(kern, slot) ==> ArmedSince(trace, from, slot)
      ensures faults == old(faults) + if ok then 0 else 1
    {
      var next := kern.(slots := kern.slots[slot := st]);
      Now();
      AdoptionKeepsInv(nm, disk, kern, next, lost);
      ok := Run(next);
    }

    /** One write to a cgroup. */
    method RunGroups(groups: map<string, set<Pid>>, ghost slot: nat, ghost from: nat) returns (ok: bool)
      requires Valid() && IsSlot(slot)
      modifies this`kern, this`dead, this`trace, this`faults
      ensures Valid() && (old(dead) ==> dead) && (dead ==> !ok) && old(trace) <= trace
      ensures kern == if ok then old(kern).(groups := groups) else old(kern)
      ensures ArmedSince(old(trace), from, slot) && old(Armed(kern, slot)) ==> ArmedSince(trace, from, slot)
      ensures faults == old(faults) + if ok then 0 else 1
    {
      AdoptionKeepsInv(nm, disk, kern, kern.(groups := groups), lost);
      ok := Run(kern.(groups := groups));
    }

    /** apply_policy: the IPv4 rule, both IPv4 routes, the IPv6 blackhole and its rule, each if missing. */
    method ApplyPolicy(slot: nat, iface: string, gateway: Option<string>, ghost from: nat) returns (ok: bool)
      requires Valid() && IsSlot(slot)
      modifies this`kern, this`dead, this`trace, this`faults
      ensures Valid() && old(trace) <= trace && (old(dead) ==> dead) && (dead ==> !ok)
      ensures OnlySlot(old(kern), kern, slot) && kern.groups == old(kern).groups
      ensures kern.slots[slot].nft == old(kern).slots[slot].nft
      ensures old(kern).slots[slot].mark4 ==> kern.slots[slot].mark4
      ensures old(Armed(kern, slot)) && ArmedSince(old(trace), from, slot) ==>
                 Armed(kern, slot) && ArmedSince(trace, from, slot)
      ensures SlotSafe(old(kern).slots[slot].table, iface) ==> SlotSafe(kern.slots[slot].table, iface)
      ensures ok ==> kern.slots[slot].mark4 && kern.slots[slot].mark6 && kern.slots[slot].hole6
      ensures ok ==> SlotComplete(kern.slots[slot].table)
      ensures ok ==> ReplaceAll(old(kern).slots[slot].table, Replacements(SlotPolicy(iface, gateway)))
                     == Some(kern.slots[slot].table)
      ensures old(faults) <= faults && (faults == old(faults) ==>
                 (ok <==> ReplaceAll(old(kern).slots[slot].table, Replacements(SlotPolicy(iface, gateway))).Some?))
      ensures SafeIfOwn(nm, kern.slots[slot].table, iface, ok, faults == old(faults))
    {
      Now();
      ok := true;
      if !kern.slots[slot].mark4 {
        ok := RunSlot(slot, kern.slots[slot].(mark4 := true), from);
      }
      if ok {
        ok := ApplySlotRoutes(slot, iface, gateway, from);
      }
      if ok {
        ok := ApplySlot6(slot, from);
      }
    }

    method ApplySlot6(slot: nat, ghost from: nat) returns (ok: bool)
      requires Valid() && IsSlot(slot)
      modifies this`kern, this`dead, this`trace, this`faults
      ensures Valid() && old(trace) <= trace && (old(dead) ==> dead) && (dead ==> !ok)
      ensures OnlySlot(old(kern), kern, slot) && kern.groups == old(kern).groups
      ensures kern.slots[slot]
              == old(kern).slots[slot].(hole6 := kern.slots[slot].hole6, mark6 := kern.slots[slot].mark6)
      ensures old(Armed(kern, slot)) && ArmedSince(old(trace), from, slot) ==>
                 Armed(kern, slot) && ArmedSince(trace, from, slot)
      ensures ok ==> kern.slots[slot].mark6 && kern.slots[slot].hole6
      ensures old(faults) <= faults && (faults == old(faults) ==> ok)
    {
      Now();
      ok := RunSlot(slot, kern.slots[slot].(hole6 := true), from);
      if ok {
        ok := RunSlot(slot, kern.slots[slot].(mark6 := true), from);
      }
    }

    method ApplySlotRoutes(slot: nat, iface: string, gateway: Option<string>, ghost from: nat) returns (ok: bool)
      requires Valid() && IsSlot(slot)
      modifies this`kern, this`dead, this`trace, this`faults
      ensures Valid() && old(trace) <= trace && (old(dead) ==> dead)
      ensures OnlySlotTable(old(kern), kern, slot)
      ensures old(Armed(kern, slot)) && ArmedSince(old(trace), from, slot) ==>
                 Armed(kern, slot) && ArmedSince(trace, from, slot)
      ensures SlotSafe(old(kern).slots[slot].table, iface) ==> SlotSafe(kern.slots[slot].table, iface)
      ensures ok ==> SlotComplete(kern.slots[slot].table)
      ensures ok ==> ReplaceAll(old(kern).slots[slot].table, Replacements(SlotPolicy(iface, gateway)))
                     == Some(kern.slots[slot].table)
      ensures old(faults) <= faults
      ensures faults == old(faults) ==> (ok <==> ReplaceAll(old(kern).slots[slot].table,
                 Replacements(SlotPolicy(iface, gateway))).Some?)
      ensures SafeIfOwn(nm, kern.slots[slot].table, iface, ok, faults == old(faults))
    {
      Now();
      ghost var t0 := kern.slots[slot].table;
      assert NoDup(t0);
      ok := ReplaceSlotRoutes(slot, iface, gateway, Replacements(SlotPolicy(iface, gateway)), from);
      if ok {
        BothRoutesComplete(t0, iface, gateway);
      }
      if nm.ownTables {
        OwnSlotSafe(t0, iface, gateway);
      }
    }

    method ReplaceSlotRoutes(slot: nat, iface: string, gateway: Option<string>, rs: seq<Route>, ghost from: nat)
      returns (ok: bool)
      requires Valid() && IsSlot(slot) && forall r | r in rs :: r in Replacements(SlotPolicy(iface, gateway))
      modifies this`kern, this`dead, this`trace, this`faults
      ensures Valid() && old(trace) <= trace && (old(dead) ==> dead)
      ensures OnlySlotTable(old(kern), kern, slot)
      ensures old(Armed(kern, slot)) && ArmedSince(old(trace), from, slot) ==>
                 Armed(kern, slot) && ArmedSince(trace, from, slot)
      ensures SlotSafe(old(kern).slots[slot].table, iface) ==> SlotSafe(kern.slots[slot].table, iface)
      ensures ok ==> ReplaceAll(old(kern).slots[slot].table, rs) == Some(kern.slots[slot].table)
      ensures old(faults) <= faults
      ensures faults == old(faults) ==> (ok <==> ReplaceAll(old(kern).slots[slot].table, rs).Some?)
    {
      ghost var t0 := kern.slots[slot].table;
      for i := 0 to |rs|
        invariant faults == old(faults)
        invariant Valid() && old(trace) <= trace && (old(dead) ==> dead)
        invariant OnlySlotTable(old(kern), kern, slot)
        invariant old(Armed(kern, slot)) && ArmedSince(old(trace), from, slot) ==>
                   Armed(kern, slot) && ArmedSince(trace, from, slot)
        invariant ReplaceAll(t0, rs[..i]) == Some(kern.slots[slot].table)
        invariant SlotSafe(t0, iface) ==> SlotSafe(kern.slots[slot].table, iface)
      {
        ReplaceOneMore(t0, rs, i);
        ok := ReplaceSlotRoute(slot, iface, gateway, rs[i], from);
        if !ok {
          PrefixDecides(t0, rs, i + 1);
          return;
        }
      }
      ok := true;
      assert rs[..|rs|] == rs;
    }

    method ReplaceSlotRoute(slot: nat, iface: string, gateway: Option<string>, r: Route, ghost from: nat)
      returns (ok: bool)
      requires Valid() && IsSlot(slot) && r in Replacements(SlotPolicy(iface, gateway))
      modifies this`kern, this`dead, this`trace, this`faults
      ensures Valid() && old(trace) <= trace && (old(dead) ==> dead)
      ensures OnlySlotTable(old(kern), kern, slot)
      ensures old(Armed(kern, slot)) && ArmedSince(old(trace), from, slot) ==>
                 Armed(kern, slot) && ArmedSince(trace, from, slot)
      ensures SlotSafe(old(kern).slots[slot].table, iface) ==> SlotSafe(kern.slots[slot].table, iface)
      ensures ok ==> !dead && Replace(old(kern).slots[slot].table, r) == Some(kern.slots[slot].table)
      ensures old(faults) <= faults && (ok ==> faults == old(faults)) && (faults == old(faults) ==>
                 (ok <==> Replace(old(kern).slots[slot].table, r).Some?))
    {
      Now();
      var t := kern.slots[slot].table;
      var u := Replace(t, r);
      if u == None { return false; }
      ReplaceKeepsComplete(t, iface, gateway, r);
      if nm.ownTables {
        ReplaceKeepsShape(t, None, r);
      }
      if SlotSafe(t, iface) {
        Now();
        SlotStaysSafe(t, iface, gateway, r);
      }
      ok := RunSlot(slot, kern.slots[slot].(table := u.value), from);
    }

    /** apply_nft: the marking table is loaded as a whole. */
    method ApplyNft(slot: nat, group: string, iface: string, ghost from: nat) returns (ok: bool)
      requires Valid() && IsSlot(slot) && Armed(kern, slot) && ArmedSince(trace, from, slot)
      requires kern.slots[slot].mark4 && SlotComplete(kern.slots[slot].table) && GroupFree(kern, slot, group)
      modifies this`kern, this`dead, this`trace, this`faults
      ensures Valid() && old(trace) <= trace && (old(dead) ==> dead) && (dead ==> !ok)
      ensures OnlySlot(old(kern), kern, slot) && kern.groups == old(kern).groups
      ensures kern.slots[slot] == if ok then old(kern).slots[slot].(nft := Some(Marking(group, iface)))
                                  else old(kern).slots[slot]
      ensures Armed(kern, slot) && ArmedSince(trace, from, slot)
      ensures faults == old(faults) + if ok then 0 else 1
    {
      Now();
      ok := RunSlot(slot, kern.slots[slot].(nft := Some(Marking(group, iface))), from);
    }

    /** delete_nft; a missing table is fine. */
    method DeleteNft(slot: nat, ghost from: nat) returns (ok: bool)
      requires Valid() && IsSlot(slot)
      modifies this`kern, this`dead, this`trace, this`faults
      ensures Valid() && old(trace) <= trace && (old(dead) ==> dead) && (dead ==> !ok)
      ensures OnlySlot(old(kern), kern, slot) && kern.groups == old(kern).groups
      ensures kern.slots[slot] == if ok then old(kern).slots[slot].(nft := None) else old(kern).slots[slot]
      ensures old(Armed(kern, slot)) && ArmedSince(old(trace), from, slot) ==>
                 Armed(kern, slot) && ArmedSince(trace, from, slot)
      ensures faults == old(faults) + if ok then 0 else 1
    {
      Now();
      ok := RunSlot(slot, kern.slots[slot].(nft := None), from);
    }

    /** remove_policy of a slot: rules and tables of both families; the first failure ends it. */
    method RemoveSlotPolicy(slot: nat, ghost from: nat) returns (ok: bool)
      requires Valid() && IsSlot(slot)
      modifies this`kern, this`dead, this`trace, this`faults
      ensures Valid() && old(trace) <= trace && (old(dead) ==> dead) && (dead ==> !ok)
      ensures OnlySlot(old(kern), kern, slot) && kern.groups == old(kern).groups
      ensures old(dead) ==> kern == old(kern) && trace == old(trace)
      ensures faults == old(faults) ==> |old(trace)| < |trace| && trace[|old(trace)|].kern == RuleGone(old(kern), slot)
      ensures kern.slots[slot].nft == old(kern).slots[slot].nft
      ensures ok ==> kern.slots[slot] == NO_SLOT.(nft := kern.slots[slot].nft)
      ensures old(Armed(kern, slot)) && ArmedSince(old(trace), from, slot) && kern.slots[slot].nft == None
              ==> Armed(kern, slot) && ArmedSince(trace, from, slot)
      ensures old(faults) <= faults && (faults == old(faults) ==> ok)
    {
      Now();
      ok := RunSlot(slot, kern.slots[slot].(mark4 := false), from);
      if ok {
        ok := RunSlot(slot, kern.slots[slot].(table := []), from);
      }
      if ok {
        ok := RemoveSlot6(slot, from);
      }
    }

    method RemoveSlot6(slot: nat, ghost from: nat) returns (ok: bool)
      requires Valid() && IsSlot(slot)
      modifies this`kern, this`dead, this`trace, this`faults
      ensures Valid() && old(trace) <= trace && (old(dead) ==> dead) && (dead ==> !ok)
      ensures OnlySlot(old(kern), kern, slot) && kern.groups == old(kern).groups
      ensures kern.slots[slot]
              == old(kern).slots[slot].(mark6 := kern.slots[slot].mark6, hole6 := kern.slots[slot].hole6)
      ensures ok ==> !kern.slots[slot].mark6 && !kern.slots[slot].hole6
      ensures old(Armed(kern, slot)) && ArmedSince(old(trace), from, slot) ==>
                 Armed(kern, slot) && ArmedSince(trace, from, slot)
      ensures old(faults) <= faults && (faults == old(faults) ==> ok)
    {
      Now();
      ok := RunSlot(slot, kern.slots[slot].(mark6 := false), from);
      if ok {
        ok := RunSlot(slot, kern.slots[slot].(hole6 := false), from);
      }
    }

    /** release_group: the given pids and whoever is in the group go to the root group, then it is removed.
        A pid that vanished is skipped; a group that does not get empty stays. */
    method ReleaseGroup(group: string, pids: seq<Pid>, ghost slot: nat, ghost from: nat) returns (ok: bool)
      requires Valid() && IsSlot(slot)
      modifies this`kern, this`dead, this`trace, this`faults
      ensures Valid() && old(trace) <= trace && (old(dead) ==> dead) && (ok ==> !dead)
      ensures kern == old(kern).(groups := kern.groups)
      ensures kern.groups.Keys <= old(kern).groups.Keys && forall g :: Members(kern, g) <= Members(old(kern), g)
      ensures pids == [] && Members(old(kern), group) == {} ==> kern.groups in [old(kern).groups,
                 old(kern).groups - {group}]
      ensures ok ==> group !in kern.groups
      ensures old(Armed(kern, slot)) && ArmedSince(old(trace), from, slot) ==> ArmedSince(trace, from, slot)
      ensures old(faults) <= faults && (faults == old(faults) ==> ok)
    {
      var left := Members(kern, group);
      for i := 0 to |pids|
        invariant Valid() && old(trace) <= trace && (old(dead) ==> dead) && old(faults) <= faults
        invariant kern == old(kern).(groups := kern.groups)
        invariant kern.groups.Keys <= old(kern).groups.Keys && forall g :: Members(kern, g) <= Members(old(kern), g)
        invariant i == 0 ==> kern == old(kern)
        invariant old(Armed(kern, slot)) && ArmedSince(old(trace), from, slot) ==> ArmedSince(trace, from, slot)
      {
        var moved := RunGroups(MoveOut(kern.groups, pids[i]), slot, from);
      }
      while left != {}
        invariant Valid() && old(trace) <= trace && (old(dead) ==> dead) && old(faults) <= faults
        invariant kern == old(kern).(groups := kern.groups)
        invariant kern.groups.Keys <= old(kern).groups.Keys && forall g :: Members(kern, g) <= Members(old(kern), g)
        invariant old(Armed(kern, slot)) && ArmedSince(old(trace), from, slot) ==> ArmedSince(trace, from, slot)
        invariant pids == [] && Members(old(kern), group) == {} ==> kern == old(kern) && left == {}
        invariant faults == old(faults) ==> Members(kern, group) <= left
        decreases left
      {
        var pid :| pid in left;
        left := left - {pid};
        var moved := RunGroups(MoveOut(kern.groups, pid), slot, from);
      }
      if Members(kern, group) != {} { return false; }
      ok := RunGroups(kern.groups - {group}, slot, from);
    }

    /** release_group with its failure swallowed. */
    method TryReleaseGroup(group: string, pids: seq<Pid>, ghost slot: nat, ghost from: nat)
      requires Valid() && IsSlot(slot)
      modifies this`kern, this`dead, this`trace, this`faults, this`stuck
      ensures Valid() && old(trace) <= trace && (old(dead) ==> dead) && old(stuck) <= stuck
      ensures kern == old(kern).(groups := kern.groups)
      ensures kern.groups.Keys <= old(kern).groups.Keys && forall g :: Members(kern, g) <= Members(old(kern), g)
      ensures pids == [] && Members(old(kern), group) == {} ==> kern.groups in [old(kern).groups,
                 old(kern).groups - {group}]
      ensures stuck == old(stuck) && !dead ==> group !in kern.groups
      ensures old(Armed(kern, slot)) && ArmedSince(old(trace), from, slot) ==> ArmedSince(trace, from, slot)
      ensures old(faults) <= faults && (faults == old(faults) ==> stuck == old(stuck) && group !in kern.groups)
    {
      var ok := ReleaseGroup(group, pids, slot, from);
      stuck := stuck + if ok || dead then 0 else 1;
    }

    /** _release_plumbing: the group, then the policy, then the nft table, each tried whatever the others did. */
    method ReleasePlumbing(a: Adoption, pids: seq<Pid>)
      requires Valid() && IsSlot(a.slot)
      modifies this`kern, this`dead, this`trace, this`faults, this`stuck
      ensures Valid() && old(trace) <= trace && (old(dead) ==> dead) && old(stuck) <= stuck
      ensures OnlySlot(old(kern), kern, a.slot)
      ensures kern.groups.Keys <= old(kern).groups.Keys && forall g :: Members(kern, g) <= Members(old(kern), g)
      ensures pids == [] && Members(old(kern), a.group) == {} ==>
                 kern.groups in [old(kern).groups, old(kern).groups - {a.group}]
      ensures stuck == old(stuck) && !dead ==> kern.slots[a.slot] == NO_SLOT && a.group !in kern.groups
      ensures old(faults) <= faults && (faults == old(faults) ==>
                 stuck == old(stuck) && kern.slots[a.slot] == NO_SLOT && a.group !in kern.groups)
      ensures OrderKeptIff(old(kern), trace, |old(trace)|, a.slot, faults == old(faults))
    {
      TryReleaseGroup(a.group, pids, a.slot, |trace|);
      ReleaseSlot(a.slot);
    }

    method ReleaseSlot(slot: nat)
      requires Valid() && IsSlot(slot)
      modifies this`kern, this`dead, this`trace, this`faults, this`stuck
      ensures Valid() && old(trace) <= trace && (old(dead) ==> dead) && old(stuck) <= stuck
      ensures OnlySlot(old(kern), kern, slot) && kern.groups == old(kern).groups
      ensures OrderKeptIff(old(kern), trace, |old(trace)|, slot, faults == old(faults))
      ensures stuck == old(stuck) && !dead ==> kern.slots[slot] == NO_SLOT
      ensures old(faults) <= faults && (faults == old(faults) ==> stuck == old(stuck) && kern.slots[slot] == NO_SLOT)
    {
      ghost var from := |trace|;
      RuleGoneBreaks(kern, slot);
      var ok := RemoveSlotPolicy(slot, from);
      stuck := stuck + if ok || dead then 0 else 1;
      ok := DeleteNft(slot, from);
      stuck := stuck + if ok || dead then 0 else 1;
    }

    /** The rollback of adopt: group, nft table, policy, each tried whatever the others did. */
    method RollbackAdopt(group: string, slot: nat, ghost from: nat)
      requires Valid() && IsSlot(slot) && Armed(kern, slot) && ArmedSince(trace, from, slot)
      modifies this`kern, this`dead, this`trace, this`faults, this`stuck
      ensures Valid() && old(trace) <= trace && (old(dead) ==> dead) && old(stuck) <= stuck
      ensures OnlySlot(old(kern), kern, slot)
      ensures stuck == old(stuck) && !dead ==> kern.slots[slot] == NO_SLOT && group !in kern.groups
      ensures stuck == old(stuck) ==> Armed(kern, slot) && ArmedSince(trace, from, slot)
      ensures old(faults) <= faults && (faults == old(faults) ==>
                 stuck == old(stuck) && kern.slots[slot] == NO_SLOT && group !in kern.groups)
    {
      TryReleaseGroup(group, [], slot, from);
      RollbackSlot(slot, from);
    }

    method RollbackSlot(slot: nat, ghost from: nat)
      requires Valid() && IsSlot(slot) && Armed(kern, slot) && ArmedSince(trace, from, slot)
      modifies this`kern, this`dead, this`trace, this`faults, this`stuck
      ensures Valid() && old(trace) <= trace && (old(dead) ==> dead) && old(stuck) <= stuck
      ensures OnlySlot(old(kern), kern, slot) && kern.groups == old(kern).groups
      ensures stuck == old(stuck) && !dead ==> kern.slots[slot] == NO_SLOT
      ensures stuck == old(stuck) ==> Armed(kern, slot) && ArmedSince(trace, from, slot)
      ensures old(faults) <= faults && (faults == old(faults) ==> stuck == old(stuck) && kern.slots[slot] == NO_SLOT)
    {
      var ok := DeleteNft(slot, from);
      stuck := stuck + if ok || dead then 0 else 1;
      ok := RemoveSlotPolicy(slot, from);
      stuck := stuck + if ok || dead then 0 else 1;
    }
  }

  /** Losing the routes of a device and a change of cgroup members keep the invariant. */
  lemma SettledInv(nm: Naming, r: Saved, k: Kernel, lost: nat, dev: string, groups: map<string, set<Pid>>)
    requires Inv(nm, World(r, k, lost))
    ensures var k' := Dropped(k, dev).(groups := groups);
            Inv(nm, World(r, k', lost)) && (Covered(nm, r, k') ==> Inv(nm, World(r, k', 0)))
  {
    DroppedShaped(k, dev);
    forall n | n in k.tables ensures NoDup(DropDevice(k.tables[n], dev)) {
      FilterNoDup(k.tables[n], (r: Route) => !(r.Unicast? && r.dev == dev));
    }
    forall s: nat | IsSlot(s) ensures NoDup(DropDevice(k.slots[s].table, dev)) {
      FilterNoDup(k.slots[s].table, (r: Route) => !(r.Unicast? && r.dev == dev));
    }
  }

  lemma DroppedShaped(k: Kernel, dev: string)
    ensures Shaped(k) ==> Shaped(Dropped(k, dev))
  {
    if Shaped(k) {
      forall n: nat | 1 <= n <= 254 ensures Shape(TableAt(Dropped(k, dev).tables, NetTable(n)), Some(PoolNet(n))) {
        DropKeepsShape(TableAt(k.tables, NetTable(n)), Some(PoolNet(n)), dev);
      }
      forall s: nat | IsSlot(s) ensures Shape(Dropped(k, dev).slots[s].table, None) {
        DropKeepsShape(k.slots[s].table, None, dev);
      }
    }
  }

  /** On tables only InterMux writes to, an ensure_policy that went through left exactly the wanted routes, and it
      goes through when no command fails. */
  ghost predicate ExactIfOwn(nm: Naming, k: Kernel, n: nat, p: Policy, ok: bool, faultless: bool) {
    nm.ownTables && p.veth.Some? ==> (ok ==> TableOk(TableAt(k.tables, NetTable(n)), p)) && (faultless ==> ok)
  }

  /** On slot tables only InterMux writes to, route commands that went through keep the table to its interface,
      and they go through when no command fails. */
  ghost predicate SafeIfOwn(nm: Naming, t: Routing.Table, iface: string, ok: bool, faultless: bool) {
    nm.ownTables ==> (ok ==> SlotSafe(t, iface)) && (faultless ==> ok)
  }

  /** The marking order held at every step from position `from` on. */
  ghost predicate ArmedSince(tr: seq<World>, from: nat, slot: nat)
    requires IsSlot(slot)
  {
    forall i | from <= i < |tr| :: Armed(tr[i].kern, slot)
  }

  function RuleGone(k: Kernel, slot: nat): Kernel
    requires IsSlot(slot)
  {
    k.(slots := k.slots[slot := k.slots[slot].(mark4 := false)])
  }

  /** A release of a slot whose marks were in order, during which no command failed, kept the order at every step
      exactly when no marking table was loaded: the source removes rule and routes first. */
  ghost predicate OrderKeptIff(k0: Kernel, tr: seq<World>, from: nat, slot: nat, faultless: bool)
    requires IsSlot(slot)
  {
    faultless && Armed(k0, slot) ==> (ArmedSince(tr, from, slot) <==> k0.slots[slot].nft == None)
  }

  /** Deleting the rule under a loaded marking table breaks the order, whatever routes there are. */
  lemma RuleGoneBreaks(k: Kernel, slot: nat)
    requires IsSlot(slot)
    ensures Armed(RuleGone(k, slot), slot) <==> k.slots[slot].nft == None
  {
  }

  /** A slot as adopt leaves it. */
  const ADOPTED_SLOT := SlotState(true, true, [Unicast(Default, "wlan0", None, ROUTE_METRIC), Fallback()], true,
                                  Some(Marking(Group("0123456789abcdef"), "wlan0")))

  /** Concrete: releasing such a slot starts with a loaded marking table without its rule. */
  lemma ReleaseOrderWitness()
    ensures var k := BARE.(slots := BARE.slots[1 := ADOPTED_SLOT]);
            Armed(k, 1) && !Armed(RuleGone(k, 1), 1)
  {
    var k := BARE.(slots := BARE.slots[1 := ADOPTED_SLOT]);
    assert ADOPTED_SLOT.table[0] in ADOPTED_SLOT.table && ADOPTED_SLOT.table[1] in ADOPTED_SLOT.table;
    RuleGoneBreaks(k, 1);
  }

  ghost predicate AllTrue(oks: seq<bool>) { forall i | 0 <= i < |oks| :: oks[i] }

  lemma AllTrueNext(oks: seq<bool>, ok: bool)
    ensures AllTrue(oks + [ok]) <==> AllTrue(oks) && ok
  {
    assert (oks + [ok])[|oks|] == ok && forall i | 0 <= i < |oks| :: (oks + [ok])[i] == oks[i];
  }

  lemma AllDeleted(t: Routing.Table, ss: seq<Route>, oks: seq<bool>)
    requires |oks| == |ss|
    ensures AllTrue(oks) ==> DeleteSome(t, ss[..|ss|], oks) == DeleteSome(t, ss, AllOk(|ss|))
  {
    assert ss[..|ss|] == ss;
    if AllTrue(oks) {
      assert oks == AllOk(|ss|);
    }
  }

  /** Every step from position `from` on leaves table n on the trail of an ensure_policy. */
  ghost predicate TrailSince(tr: seq<World>, from: nat, n: nat, t0: Routing.Table, p: Policy) {
    forall i | from <= i < |tr| :: OnTrail(t0, p, TableAt(tr[i].kern.tables, n))
  }

  function Applied(cs: Chains, rules: seq<NatRule>): Chains {
    if rules == [] then cs else ApplyRule(Applied(cs, rules[..|rules| - 1]), rules[|rules| - 1])
  }

  lemma AppliedNext(cs: Chains, rules: seq<NatRule>, i: nat)
    requires i < |rules|
    ensures Applied(cs, rules[..i + 1]) == ApplyRule(Applied(cs, rules[..i]), rules[i])
  {
    assert rules[..i + 1][..i] == rules[..i];
  }

  lemma AppliedAll(cs: Chains, net: Net, iface: string)
    ensures Applied(cs, NatRules(net, iface)) == Firewall.EnsureNat(cs, net, iface)
  {
    var rs := NatRules(net, iface);
    assert rs[..2] == [rs[0], rs[1]] && rs[..2][..1] == [rs[0]] && [rs[0]][..0] == [];
    assert Applied(cs, [rs[0]]) == ApplyRule(cs, rs[0]);
    assert Applied(cs, rs[..2]) == ApplyRule(Applied(cs, [rs[0]]), rs[1]);
  }

  lemma RuleSparesOthers(cs: Chains, iface: string, n: nat, rule: NatRule)
    requires rule in NatRules(PoolNet(n), iface)
    ensures forall j, m | m != n :: NatOf(ApplyRule(cs, rule), j, m) == NatOf(cs, j, m)
    ensures HasRule(cs, rule) ==> ApplyRule(cs, rule) == cs
  {
  }

  lemma NatRuleKeepsInv(nm: Naming, r: Saved, k: Kernel, iface: string, n: nat, rule: NatRule, lost: nat)
    requires Inv(nm, World(r, k, lost)) && Recorded(r, iface, n) && rule in NatRules(PoolNet(n), iface)
    ensures Inv(nm, World(r, k.(chains := ApplyRule(k.chains, rule)), lost))
  {
    var cs := ApplyRule(k.chains, rule);
    assert n in r.subnets.Values;
    forall m: nat, i: string | 1 <= m <= 254
      ensures Once(cs.post, Masquerade(PoolNet(m), i))
      ensures Masquerade(PoolNet(m), i) in cs.post ==>
                Masquerade(PoolNet(m), i) in k.chains.post || (m == n && i == iface)
    {
      EnsureKeepsOnce(k.chains.post, rule.spec, rule.insert, Masquerade(PoolNet(m), i));
      SpecsOfOthers(m, i, n, iface);
    }
    forall m: nat | 1 <= m <= 254
      ensures Once(cs.fwd, AcceptOut(PoolNet(m))) && Once(cs.fwd, AcceptBack(PoolNet(m)))
      ensures AcceptOut(PoolNet(m)) in cs.fwd ==> AcceptOut(PoolNet(m)) in k.chains.fwd || m == n
      ensures AcceptBack(PoolNet(m)) in cs.fwd ==> AcceptBack(PoolNet(m)) in k.chains.fwd || m == n
    {
      EnsureKeepsOnce(k.chains.fwd, rule.spec, rule.insert, AcceptOut(PoolNet(m)));
      EnsureKeepsOnce(k.chains.fwd, rule.spec, rule.insert, AcceptBack(PoolNet(m)));
      SpecsOfOthers(m, iface, n, iface);
      SpecsOfOthers(n, iface, m, iface);
    }
  }
}
