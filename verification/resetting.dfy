/** The steps of reset, each of which may fail and is passed over (intermux/engine.py). */
module Resetting {
  import opened Basics
  import opened Subnets
  import opened Firewall
  import opened Procs
  import opened Record
  import opened Adopt
  import opened Machine
  import opened Stop
  import opened Reset

  // -------------------------------------------------------------- plumbing of dropped bindings

  lemma DropLine(c: Chain, spec: Spec, nets: set<nat>)
    requires !Keeps(spec, nets)
    ensures SameKept(c, DeleteFirst(c, spec), nets)
  {
  }

  lemma CutPruned(cs: Chains, iface: string, n: nat, c: Cuts, nets: set<nat>)
    requires 1 <= n <= 254 && n !in nets
    ensures SameKept(cs.post, CutChains(cs, iface, n, c).post, nets)
    ensures SameKept(cs.fwd, CutChains(cs, iface, n, c).fwd, nets)
  {
    OwnRuleNets(n, iface, nets);
    DropLine(cs.post, Masquerade(PoolNet(n), iface), nets);
    var fwd1 := if c.out then DeleteFirst(cs.fwd, AcceptOut(PoolNet(n))) else cs.fwd;
    DropLine(cs.fwd, AcceptOut(PoolNet(n)), nets);
    DropLine(fwd1, AcceptBack(PoolNet(n)), nets);
  }

  lemma UnplumbPruned(k: Kernel, iface: string, n: nat, h: Hash, c: Cuts, busy: set<Hash>, nets: set<nat>)
    requires 1 <= n <= 254 && n !in nets && h !in busy
    ensures Pruned(k, Unplumb(k, iface, n, h, c), busy, nets)
  {
    CutPruned(k.chains, iface, n, c, nets);
    OwnRuleDropped(n, nets);
  }

  lemma PrunedSelf(k: Kernel, busy: set<Hash>, nets: set<nat>)
    ensures Pruned(k, k, busy, nets)
  {
  }

  /** _teardown_binding_plumbing for every binding whose namespace is not busy. */
  method DropBindingsPlumbing(m: Host, bs: seq<Binding>, busy: set<Hash>)
    requires m.Valid() && bs == m.disk.bindings
    modifies m`kern, m`dead, m`trace, m`faults, m`lost
    ensures m.Valid() && old(m.trace) <= m.trace && (old(m.dead) ==> m.dead) && old(m.lost) <= m.lost
    ensures m.kern.slots == old(m.kern).slots && m.kern.groups == old(m.kern).groups
    ensures Pruned(old(m.kern), m.kern, busy, NetsOf(m.nm, m.disk, busy))
    ensures (forall b | b in bs :: b.ns in busy) ==> m.kern == old(m.kern)
    ensures old(m.faults) <= m.faults && (m.faults == old(m.faults) ==> m.lost == old(m.lost))
  {
    ghost var k0, nets := m.kern, NetsOf(m.nm, m.disk, busy);
    PrunedSelf(k0, busy, nets);
    for i := 0 to |bs|
      invariant m.Valid() && old(m.trace) <= m.trace && (old(m.dead) ==> m.dead) && old(m.lost) <= m.lost
      invariant old(m.faults) <= m.faults && (m.faults == old(m.faults) ==> m.lost == old(m.lost))
      invariant Pruned(k0, m.kern, busy, nets) && m.kern.slots == k0.slots && m.kern.groups == k0.groups
      invariant (forall b | b in bs :: b.ns in busy) ==> m.kern == k0
    {
      if bs[i].ns !in busy {
        ghost var k := m.kern;
        DropOne(m, bs[i], busy);
        PrunedTwice(k0, k, m.kern, busy, nets);
      }
    }
  }

  method DropOne(m: Host, b: Binding, busy: set<Hash>)
    requires m.Valid() && b in m.disk.bindings && b.ns !in busy
    modifies m`kern, m`dead, m`trace, m`faults, m`lost
    ensures m.Valid() && old(m.trace) <= m.trace && (old(m.dead) ==> m.dead) && old(m.lost) <= m.lost
    ensures m.kern.slots == old(m.kern).slots && m.kern.groups == old(m.kern).groups
    ensures Pruned(old(m.kern), m.kern, busy, NetsOf(m.nm, m.disk, busy))
    ensures old(m.faults) <= m.faults && (m.faults == old(m.faults) ==> m.lost == old(m.lost))
  {
    m.Now();
    ghost var k := m.kern;
    assert Derived(m.nm, m.disk, b);
    StayingNet(m.nm, m.disk, busy, b.iface);
    ghost var cuts;
    var ok;
    ok, cuts := m.TeardownPlumbing(b.iface, b.net, b.ns);
    UnplumbPruned(k, b.iface, b.net, b.ns, cuts, busy, NetsOf(m.nm, m.disk, busy));
    m.Swallow(ok);
  }

  // -------------------------------------------------------------- veths and namespaces

  lemma VethGone(nm: Naming, r: Saved, k: Kernel, h: Hash, lost: nat, busy: set<Hash>, nets: set<nat>)
    requires Inv(nm, World(r, k, lost))
    ensures Inv(nm, World(r, k.(veths := k.veths - {h}), lost))
    ensures Inv(nm, World(r, k.(namespaces := k.namespaces - {h}), lost))
    ensures h !in busy ==> Pruned(k, k.(veths := k.veths - {h}), busy, nets)
                           && Pruned(k, k.(namespaces := k.namespaces - {h}), busy, nets)
  {
  }

  method DeleteVeths(m: Host, busy: set<Hash>, ghost nets: set<nat>)
    requires m.Valid()
    modifies m`kern, m`dead, m`trace, m`faults, m`lost
    ensures m.Valid() && old(m.trace) <= m.trace && (old(m.dead) ==> m.dead) && old(m.lost) <= m.lost
    ensures Pruned(old(m.kern), m.kern, busy, nets) && m.kern == old(m.kern).(veths := m.kern.veths)
    ensures m.lost == old(m.lost) && !m.dead ==> m.kern.veths <= busy
    ensures old(m.kern).veths <= busy ==> m.kern == old(m.kern)
    ensures old(m.faults) <= m.faults && (m.faults == old(m.faults) ==> m.lost == old(m.lost))
  {
    ghost var k0 := m.kern;
    var todo := m.kern.veths - busy;
    PrunedSelf(k0, busy, nets);
    while todo != {}
      invariant m.Valid() && old(m.trace) <= m.trace && (old(m.dead) ==> m.dead) && old(m.lost) <= m.lost
      invariant old(m.faults) <= m.faults && (m.faults == old(m.faults) ==> m.lost == old(m.lost))
      invariant todo !! busy
      invariant Pruned(k0, m.kern, busy, nets) && m.kern == k0.(veths := m.kern.veths)
      invariant m.lost == old(m.lost) && !m.dead ==> m.kern.veths <= busy + todo
      invariant k0.veths <= busy ==> todo == {} && m.kern == k0
      decreases todo
    {
      var h :| h in todo;
      todo := todo - {h};
      m.Now();
      ghost var k := m.kern;
      VethGone(m.nm, m.disk, k, h, m.lost, busy, nets);
      ghost var cut := m.RunUnchecked(m.kern.(veths := m.kern.veths - {h}));
      PrunedSelf(k, busy, nets);
      PrunedTwice(k0, k, m.kern, busy, nets);
    }
  }

  method DeleteNamespaces(m: Host, busy: set<Hash>, ghost nets: set<nat>)
    requires m.Valid()
    modifies m`kern, m`dead, m`trace, m`faults, m`lost
    ensures m.Valid() && old(m.trace) <= m.trace && (old(m.dead) ==> m.dead) && old(m.lost) <= m.lost
    ensures Pruned(old(m.kern), m.kern, busy, nets) && m.kern == old(m.kern).(namespaces := m.kern.namespaces)
    ensures m.lost == old(m.lost) && !m.dead ==> m.kern.namespaces <= busy
    ensures old(m.kern).namespaces <= busy ==> m.kern == old(m.kern)
    ensures old(m.faults) <= m.faults && (m.faults == old(m.faults) ==> m.lost == old(m.lost))
  {
    ghost var k0 := m.kern;
    var todo := m.kern.namespaces - busy;
    PrunedSelf(k0, busy, nets);
    while todo != {}
      invariant m.Valid() && old(m.trace) <= m.trace && (old(m.dead) ==> m.dead) && old(m.lost) <= m.lost
      invariant old(m.faults) <= m.faults && (m.faults == old(m.faults) ==> m.lost == old(m.lost))
      invariant todo !! busy
      invariant Pruned(k0, m.kern, busy, nets) && m.kern == k0.(namespaces := m.kern.namespaces)
      invariant m.lost == old(m.lost) && !m.dead ==> m.kern.namespaces <= busy + todo
      invariant k0.namespaces <= busy ==> todo == {} && m.kern == k0
      decreases todo
    {
      var h :| h in todo;
      todo := todo - {h};
      m.Now();
      ghost var k := m.kern;
      VethGone(m.nm, m.disk, k, h, m.lost, busy, nets);
      ghost var cut := m.RunUnchecked(m.kern.(namespaces := m.kern.namespaces - {h}));
      PrunedSelf(k, busy, nets);
      PrunedTwice(k0, k, m.kern, busy, nets);
    }
  }

  // -------------------------------------------------------------- rules

  lemma RuleGone(nm: Naming, r: Saved, k: Kernel, n: nat, lost: nat)
    requires Inv(nm, World(r, k, lost))
    ensures Inv(nm, World(r, k.(rules := k.rules - {OwnRule(n)}), lost))
    ensures Inv(nm, World(r, k.(tables := k.tables - {NetTable(n)}), lost))
  {
  }

  lemma RulePruned(k: Kernel, n: nat, busy: set<Hash>, nets: set<nat>)
    requires 1 <= n <= 254 && n !in nets
    ensures Pruned(k, k.(rules := k.rules - {OwnRule(n)}), busy, nets)
    ensures Pruned(k, k.(tables := k.tables - {NetTable(n)}), busy, nets)
  {
  }

  /** _remove_rule: the rule, then the flush of its table. */
  method DeleteRule(m: Host, n: nat, busy: set<Hash>, nets: set<nat>)
    requires m.Valid() && 1 <= n <= 254 && n !in nets
    modifies m`kern, m`dead, m`trace, m`faults, m`lost
    ensures m.Valid() && old(m.trace) <= m.trace && (old(m.dead) ==> m.dead) && old(m.lost) <= m.lost
    ensures Pruned(old(m.kern), m.kern, busy, nets)
    ensures m.kern == old(m.kern).(rules := m.kern.rules, tables := m.kern.tables)
    ensures m.kern.rules <= old(m.kern).rules && (m.lost == old(m.lost) && !m.dead ==> OwnRule(n) !in m.kern.rules)
    ensures old(m.faults) <= m.faults && (m.faults == old(m.faults) ==> m.lost == old(m.lost))
  {
    m.Now();
    ghost var k := m.kern;
    RuleGone(m.nm, m.disk, k, n, m.lost);
    RulePruned(k, n, busy, nets);
    PrunedSelf(k, busy, nets);
    ghost var cut := m.RunUnchecked(m.kern.(rules := m.kern.rules - {OwnRule(n)}));
    m.Now();
    ghost var k1 := m.kern;
    RuleGone(m.nm, m.disk, k1, n, m.lost);
    RulePruned(k1, n, busy, nets);
    PrunedSelf(k1, busy, nets);
    var flushed := m.Run(m.kern.(tables := m.kern.tables - {NetTable(n)}));
    PrunedTwice(k, k1, m.kern, busy, nets);
  }

  method DeleteRules(m: Host, busy: set<Hash>, nets: set<nat>)
    requires m.Valid()
    modifies m`kern, m`dead, m`trace, m`faults, m`lost
    ensures m.Valid() && old(m.trace) <= m.trace && (old(m.dead) ==> m.dead) && old(m.lost) <= m.lost
    ensures Pruned(old(m.kern), m.kern, busy, nets)
    ensures m.kern == old(m.kern).(rules := m.kern.rules, tables := m.kern.tables)
    ensures m.lost == old(m.lost) && !m.dead ==> forall x | x in m.kern.rules :: !OwnDropped(x, nets)
    ensures (forall x | x in old(m.kern).rules :: !OwnDropped(x, nets)) ==> m.kern == old(m.kern)
    ensures old(m.faults) <= m.faults && (m.faults == old(m.faults) ==> m.lost == old(m.lost))
  {
    ghost var k0 := m.kern;
    PrunedSelf(k0, busy, nets);
    for n := 1 to 255
      invariant m.Valid() && old(m.trace) <= m.trace && (old(m.dead) ==> m.dead) && old(m.lost) <= m.lost
      invariant old(m.faults) <= m.faults && (m.faults == old(m.faults) ==> m.lost == old(m.lost))
      invariant Pruned(k0, m.kern, busy, nets)
      invariant m.kern == k0.(rules := m.kern.rules, tables := m.kern.tables)
      invariant m.lost == old(m.lost) && !m.dead ==>
                  forall j: nat | 1 <= j < n && j !in nets :: OwnRule(j) !in m.kern.rules
      invariant (forall x | x in k0.rules :: !OwnDropped(x, nets)) ==> m.kern == k0
    {
      if OwnRule(n) in m.kern.rules && n !in nets {
        ghost var k := m.kern;
        DeleteRule(m, n, busy, nets);
        PrunedTwice(k0, k, m.kern, busy, nets);
      }
    }
  }

  // -------------------------------------------------------------- NAT lines

  function ChainOf(cs: Chains, post: bool): Chain { if post then cs.post else cs.fwd }
  function SetChain(cs: Chains, post: bool, c: Chain): Chains { if post then cs.(post := c) else cs.(fwd := c) }

  /** The lines reset deletes from one chain, in listing order. */
  function DroppedRules(c: Chain, nets: set<nat>): Chain { Filter(c, (x: Spec) => !Keeps(x, nets)) }

  lemma {:induction false} DeleteEachNext(c: Chain, ss: seq<Spec>, i: nat)
    requires i < |ss|
    ensures DeleteEach(c, ss[..i + 1]) == DeleteFirst(DeleteEach(c, ss[..i]), ss[i])
    decreases i
  {
    if i == 0 {
      assert ss[..1] == [ss[0]] && [ss[0]][1..] == [];
    } else {
      assert ss[..i][1..] == ss[1..][..i - 1] && ss[..i + 1][1..] == ss[1..][..i];
      DeleteEachNext(DeleteFirst(c, ss[0]), ss[1..], i - 1);
    }
  }

  lemma LineGone(nm: Naming, r: Saved, k: Kernel, post: bool, spec: Spec, lost: nat)
    requires Inv(nm, World(r, k, lost))
    ensures Inv(nm, World(r, k.(chains := SetChain(k.chains, post, DeleteFirst(ChainOf(k.chains, post), spec))), lost))
  {
    forall x: Spec | Once(ChainOf(k.chains, post), x)
      ensures Once(DeleteFirst(ChainOf(k.chains, post), spec), x)
    {
      DeleteKeepsOnce(ChainOf(k.chains, post), spec, x);
    }
  }

  /** One listed line, turned into a -D command whose failure is not looked at. */
  method DeleteRuleLine(m: Host, post: bool, spec: Spec, busy: set<Hash>, nets: set<nat>) returns (ghost cut: bool)
    requires m.Valid() && !Keeps(spec, nets)
    modifies m`kern, m`dead, m`trace, m`faults, m`lost
    ensures m.Valid() && old(m.trace) <= m.trace && (old(m.dead) ==> m.dead) && old(m.lost) <= m.lost
    ensures Pruned(old(m.kern), m.kern, busy, nets)
    ensures !cut ==> m.dead || m.lost > old(m.lost)
    ensures m.kern == if cut then old(m.kern).(chains := SetChain(old(m.kern).chains, post,
               DeleteFirst(ChainOf(old(m.kern).chains, post), spec)))
                      else old(m.kern)
    ensures old(m.faults) <= m.faults && (m.faults == old(m.faults) ==> m.lost == old(m.lost))
  {
    LineRoundTrip(spec);
    var args := DeleteArgs(Line(if post then "POSTROUTING" else "FORWARD", spec)).value;
    m.Now();
    LineGone(m.nm, m.disk, m.kern, post, spec, m.lost);
    DropLine(ChainOf(m.kern.chains, post), spec, nets);
    PrunedSelf(m.kern, busy, nets);
    cut := m.RunUnchecked(m.kern.(chains := SetChain(m.kern.chains, args.table.Nat?,
                                                     DeleteFirst(ChainOf(m.kern.chains, args.table.Nat?), args.spec))));
  }

  /** Where the deletion of listed lines stands after the first i; `l0` is the number of removals lost before. */
  ghost predicate LinesGone(m: Host, k0: Kernel, post: bool, lines: seq<Spec>, i: nat, l0: nat, busy: set<Hash>,
                            nets: set<nat>)
    requires i <= |lines|
    reads m
  {
    && l0 <= m.lost && Pruned(k0, m.kern, busy, nets)
    && m.kern == k0.(chains := SetChain(k0.chains, post, ChainOf(m.kern.chains, post)))
    && (m.lost == l0 && !m.dead ==> ChainOf(m.kern.chains, post) == DeleteEach(ChainOf(k0.chains, post), lines[..i]))
  }

  method DeleteLineNext(m: Host, post: bool, lines: seq<Spec>, i: nat, busy: set<Hash>, nets: set<nat>,
                        ghost k0: Kernel, ghost l0: nat)
    requires m.Valid() && i < |lines| && !Keeps(lines[i], nets) && LinesGone(m, k0, post, lines, i, l0, busy, nets)
    modifies m`kern, m`dead, m`trace, m`faults, m`lost
    ensures m.Valid() && old(m.trace) <= m.trace && (old(m.dead) ==> m.dead) && old(m.lost) <= m.lost
    ensures LinesGone(m, k0, post, lines, i + 1, l0, busy, nets)
    ensures old(m.faults) <= m.faults && (m.faults == old(m.faults) ==> m.lost == old(m.lost))
  {
    ghost var k := m.kern;
    DeleteEachNext(ChainOf(k0.chains, post), lines, i);
    ghost var cut := DeleteRuleLine(m, post, lines[i], busy, nets);
    PrunedTwice(k0, k, m.kern, busy, nets);
  }

  /** One -D command per line. */
  method DeleteEachLine(m: Host, post: bool, lines: seq<Spec>, busy: set<Hash>, nets: set<nat>)
    requires m.Valid() && forall x | x in lines :: !Keeps(x, nets)
    modifies m`kern, m`dead, m`trace, m`faults, m`lost
    ensures m.Valid() && old(m.trace) <= m.trace && (old(m.dead) ==> m.dead) && old(m.lost) <= m.lost
    ensures Pruned(old(m.kern), m.kern, busy, nets)
    ensures m.kern == old(m.kern).(chains := SetChain(old(m.kern).chains, post, ChainOf(m.kern.chains, post)))
    ensures m.lost == old(m.lost) && !m.dead ==>
              ChainOf(m.kern.chains, post) == DeleteEach(ChainOf(old(m.kern).chains, post), lines)
    ensures lines == [] ==> m.kern == old(m.kern)
    ensures old(m.faults) <= m.faults && (m.faults == old(m.faults) ==> m.lost == old(m.lost))
  {
    ghost var k0, l0 := m.kern, m.lost;
    PrunedSelf(k0, busy, nets);
    for i := 0 to |lines|
      invariant m.Valid() && old(m.trace) <= m.trace && (old(m.dead) ==> m.dead)
      invariant old(m.faults) <= m.faults && (m.faults == old(m.faults) ==> m.lost == l0)
      invariant LinesGone(m, k0, post, lines, i, l0, busy, nets)
      invariant i == 0 ==> m.kern == k0
    {
      DeleteLineNext(m, post, lines, i, busy, nets, k0, l0);
    }
    assert lines[..|lines|] == lines;
  }

  method DeleteLines(m: Host, post: bool, busy: set<Hash>, nets: set<nat>)
    requires m.Valid()
    modifies m`kern, m`dead, m`trace, m`faults, m`lost
    ensures m.Valid() && old(m.trace) <= m.trace && (old(m.dead) ==> m.dead) && old(m.lost) <= m.lost
    ensures Pruned(old(m.kern), m.kern, busy, nets)
    ensures m.kern == old(m.kern).(chains := SetChain(old(m.kern).chains, post, ChainOf(m.kern.chains, post)))
    ensures m.lost == old(m.lost) && !m.dead ==>
              ChainOf(m.kern.chains, post) == KeptRules(ChainOf(old(m.kern).chains, post), nets)
    ensures KeptRules(ChainOf(old(m.kern).chains, post), nets) == ChainOf(old(m.kern).chains, post) ==>
              m.kern == old(m.kern)
    ensures old(m.faults) <= m.faults && (m.faults == old(m.faults) ==> m.lost == old(m.lost))
  {
    AllLinesGone(ChainOf(m.kern.chains, post), nets);
    NoneDropped(ChainOf(m.kern.chains, post), nets);
    DeleteEachLine(m, post, DroppedRules(ChainOf(m.kern.chains, post), nets), busy, nets);
  }

  lemma NoneDropped(c: Chain, nets: set<nat>)
    ensures KeptRules(c, nets) == c ==> DroppedRules(c, nets) == []
  {
    if KeptRules(c, nets) == c {
      forall x | x in c ensures Keeps(x, nets) {
        assert x in KeptRules(c, nets);
      }
      FilterNone(c, (x: Spec) => !Keeps(x, nets));
    }
  }

  lemma AllLinesGone(c: Chain, nets: set<nat>)
    ensures DeleteEach(c, DroppedRules(c, nets)) == KeptRules(c, nets)
  {
    assert [] + c == c;
    DeletingListedLeavesKept(c, (x: Spec) => Keeps(x, nets), (x: Spec) => !Keeps(x, nets), []);
  }

  // -------------------------------------------------------------- the removal part

  method TearSpaces(m: Host, bs: seq<Binding>, busy: set<Hash>, nets: set<nat>)
    requires m.Valid() && bs == m.disk.bindings && nets == NetsOf(m.nm, m.disk, busy)
    modifies m`kern, m`dead, m`trace, m`faults, m`lost
    ensures m.Valid() && old(m.trace) <= m.trace && (old(m.dead) ==> m.dead) && old(m.lost) <= m.lost
    ensures m.kern.slots == old(m.kern).slots && m.kern.groups == old(m.kern).groups
    ensures Pruned(old(m.kern), m.kern, busy, nets)
    ensures m.lost == old(m.lost) && !m.dead ==> m.kern.namespaces <= busy && m.kern.veths <= busy
    ensures old(m.kern).namespaces <= busy && old(m.kern).veths <= busy && (forall b | b in bs :: b.ns in busy) ==>
              m.kern == old(m.kern)
    ensures old(m.faults) <= m.faults && (m.faults == old(m.faults) ==> m.lost == old(m.lost))
  {
    ghost var k0 := m.kern;
    DropBindingsPlumbing(m, bs, busy);
    ghost var k1 := m.kern;
    DeleteVeths(m, busy, nets);
    PrunedTwice(k0, k1, m.kern, busy, nets);
    ghost var k2 := m.kern;
    DeleteNamespaces(m, busy, nets);
    PrunedTwice(k0, k2, m.kern, busy, nets);
  }

  method TearRules(m: Host, busy: set<Hash>, nets: set<nat>)
    requires m.Valid()
    modifies m`kern, m`dead, m`trace, m`faults, m`lost
    ensures m.Valid() && old(m.trace) <= m.trace && (old(m.dead) ==> m.dead) && old(m.lost) <= m.lost
    ensures Pruned(old(m.kern), m.kern, busy, nets)
    ensures m.kern == old(m.kern).(rules := m.kern.rules, tables := m.kern.tables, chains := m.kern.chains)
    ensures m.lost == old(m.lost) && !m.dead ==>
              && (forall x | x in m.kern.rules :: !OwnDropped(x, nets))
              && m.kern.chains.post == KeptRules(old(m.kern).chains.post, nets)
              && m.kern.chains.fwd == KeptRules(old(m.kern).chains.fwd, nets)
    ensures OnlyStaying(old(m.kern), busy, nets) ==> m.kern == old(m.kern)
    ensures old(m.faults) <= m.faults && (m.faults == old(m.faults) ==> m.lost == old(m.lost))
  {
    ghost var k0 := m.kern;
    DeleteRules(m, busy, nets);
    ghost var k1 := m.kern;
    DeleteLines(m, true, busy, nets);
    PrunedTwice(k0, k1, m.kern, busy, nets);
    ghost var k2 := m.kern;
    DeleteLines(m, false, busy, nets);
    PrunedTwice(k0, k2, m.kern, busy, nets);
  }

  lemma KeptTwice(c: Chain, nets: set<nat>)
    ensures KeptRules(KeptRules(c, nets), nets) == KeptRules(c, nets)
  {
    FilterAll(KeptRules(c, nets), (x: Spec) => Keeps(x, nets));
  }

  method TearAll(m: Host, bs: seq<Binding>, busy: set<Hash>, nets: set<nat>)
    requires m.Valid() && bs == m.disk.bindings && nets == NetsOf(m.nm, m.disk, busy)
    modifies m`kern, m`dead, m`trace, m`faults, m`lost
    ensures m.Valid() && old(m.trace) <= m.trace && (old(m.dead) ==> m.dead) && old(m.lost) <= m.lost
    ensures m.kern.slots == old(m.kern).slots && m.kern.groups == old(m.kern).groups
    ensures Pruned(old(m.kern), m.kern, busy, nets)
    ensures m.lost == old(m.lost) && !m.dead ==> OnlyStaying(m.kern, busy, nets)
    ensures OnlyStaying(old(m.kern), busy, nets) && (forall b | b in bs :: b.ns in busy) ==> m.kern == old(m.kern)
    ensures old(m.faults) <= m.faults && (m.faults == old(m.faults) ==> m.lost == old(m.lost))
  {
    ghost var k0 := m.kern;
    TearSpaces(m, bs, busy, nets);
    ghost var k1 := m.kern;
    TearRules(m, busy, nets);
    PrunedTwice(k0, k1, m.kern, busy, nets);
    KeptTwice(k1.chains.post, nets);
    KeptTwice(k1.chains.fwd, nets);
  }

  // -------------------------------------------------------------- adoptions

  ghost predicate NoTables(k: Kernel) { forall s: nat | IsSlot(s) :: k.slots[s].nft == None }

  ghost predicate NoMarks(k: Kernel) { forall s: nat | IsSlot(s) :: !k.slots[s].mark4 && !k.slots[s].mark6 }

  ghost predicate SlotsSwept(k: Kernel) { NoTables(k) && NoMarks(k) }

  ghost predicate NoEmptyGroups(k: Kernel) { forall g | g in k.groups :: k.groups[g] != {} }

  ghost predicate GroupsGone(k: Kernel, xs: seq<Adoption>) { forall a | a in xs :: a.group !in k.groups }

  method ReleaseAll(m: Host, xs: seq<Adoption>)
    requires m.Valid() && forall a | a in xs :: IsSlot(a.slot)
    modifies m`kern, m`dead, m`trace, m`faults, m`stuck
    ensures m.Valid() && old(m.trace) <= m.trace && (old(m.dead) ==> m.dead) && old(m.stuck) <= m.stuck
    ensures OnlyAdoption(old(m.kern), m.kern)
    ensures m.stuck == old(m.stuck) && !m.dead ==> GroupsGone(m.kern, xs)
    ensures xs == [] ==> m.kern == old(m.kern)
    ensures old(m.faults) <= m.faults && (m.faults == old(m.faults) ==> m.stuck == old(m.stuck))
  {
    for i := 0 to |xs|
      invariant m.Valid() && old(m.trace) <= m.trace && (old(m.dead) ==> m.dead) && old(m.stuck) <= m.stuck
      invariant old(m.faults) <= m.faults && (m.faults == old(m.faults) ==> m.stuck == old(m.stuck))
      invariant OnlyAdoption(old(m.kern), m.kern)
      invariant m.stuck == old(m.stuck) && !m.dead ==> GroupsGone(m.kern, xs[..i])
      invariant i == 0 ==> m.kern == old(m.kern)
    {
      assert xs[..i + 1] == xs[..i] + [xs[i]];
      m.ReleasePlumbing(xs[i], []);
    }
    assert xs[..|xs|] == xs;
  }

  /** Every nft table of a slot that is loaded is deleted, recorded or not. */
  method DeleteTables(m: Host)
    requires m.Valid()
    modifies m`kern, m`dead, m`trace, m`faults, m`stuck
    ensures m.Valid() && old(m.trace) <= m.trace && (old(m.dead) ==> m.dead) && old(m.stuck) <= m.stuck
    ensures OnlyAdoption(old(m.kern), m.kern)
    ensures m.stuck == old(m.stuck) && !m.dead ==> NoTables(m.kern)
    ensures NoTables(old(m.kern)) ==> m.kern == old(m.kern)
    ensures old(m.faults) <= m.faults && (m.faults == old(m.faults) ==> m.stuck == old(m.stuck))
    ensures m.kern.groups == old(m.kern).groups
  {
    for slot := SLOT_MIN to SLOT_MAX + 1
      invariant m.Valid() && old(m.trace) <= m.trace && (old(m.dead) ==> m.dead) && old(m.stuck) <= m.stuck
      invariant old(m.faults) <= m.faults && (m.faults == old(m.faults) ==> m.stuck == old(m.stuck))
      invariant m.kern.groups == old(m.kern).groups
      invariant OnlyAdoption(old(m.kern), m.kern)
      invariant m.stuck == old(m.stuck) && !m.dead ==> forall s: nat | 1 <= s < slot :: m.kern.slots[s].nft == None
      invariant NoTables(old(m.kern)) ==> m.kern == old(m.kern)
    {
      if m.kern.slots[slot].nft.Some? {
        var ok := m.DeleteNft(slot, |m.trace|);
        m.stuck := m.stuck + if ok || m.dead then 0 else 1;
      }
    }
  }

  /** sweep_leftovers for one slot: a left rule of either family goes, then its table. */
  method SweepSlot(m: Host, slot: nat)
    requires m.Valid() && IsSlot(slot)
    modifies m`kern, m`dead, m`trace, m`faults, m`stuck
    ensures m.Valid() && old(m.trace) <= m.trace && (old(m.dead) ==> m.dead) && old(m.stuck) <= m.stuck
    ensures OnlySlot(old(m.kern), m.kern, slot) && m.kern.slots[slot].nft == old(m.kern).slots[slot].nft
    ensures !old(m.kern).slots[slot].mark4 && !old(m.kern).slots[slot].mark6 ==> m.kern == old(m.kern)
    ensures m.stuck == old(m.stuck) && !m.dead ==> !m.kern.slots[slot].mark4 && !m.kern.slots[slot].mark6
    ensures old(m.faults) <= m.faults && (m.faults == old(m.faults) ==> m.stuck == old(m.stuck))
    ensures m.kern.groups == old(m.kern).groups
  {
    SweepFamily(m, slot, V4);
    SweepFamily(m, slot, V6);
  }

  method SweepFamily(m: Host, slot: nat, family: IpFamily)
    requires m.Valid() && IsSlot(slot)
    modifies m`kern, m`dead, m`trace, m`faults, m`stuck
    ensures m.Valid() && old(m.trace) <= m.trace && (old(m.dead) ==> m.dead) && old(m.stuck) <= m.stuck
    ensures OnlySlot(old(m.kern), m.kern, slot) && m.kern.slots[slot].nft == old(m.kern).slots[slot].nft
    ensures var s, s0 := m.kern.slots[slot], old(m.kern).slots[slot];
            if family == V4 then s.mark6 == s0.mark6 && (m.stuck == old(m.stuck) && !m.dead ==> !s.mark4)
            else s.mark4 == s0.mark4 && (m.stuck == old(m.stuck) && !m.dead ==> !s.mark6)
    ensures !(if family == V4 then old(m.kern).slots[slot].mark4 else old(m.kern).slots[slot].mark6) ==>
              m.kern == old(m.kern)
    ensures old(m.faults) <= m.faults && (m.faults == old(m.faults) ==> m.stuck == old(m.stuck))
    ensures m.kern.groups == old(m.kern).groups
  {
    m.Now();
    var s := m.kern.slots[slot];
    if if family == V4 then s.mark4 else s.mark6 {
      var t := if family == V4 then s.(mark4 := false) else s.(mark6 := false);
      var ok := m.RunSlot(slot, t, |m.trace|);
      if ok {
        ok := m.RunSlot(slot, if family == V4 then t.(table := []) else t.(hole6 := false), |m.trace|);
      }
      m.stuck := m.stuck + if ok || m.dead then 0 else 1;
    }
  }

  method SweepSlots(m: Host)
    requires m.Valid()
    modifies m`kern, m`dead, m`trace, m`faults, m`stuck
    ensures m.Valid() && old(m.trace) <= m.trace && (old(m.dead) ==> m.dead) && old(m.stuck) <= m.stuck
    ensures OnlyAdoption(old(m.kern), m.kern)
    ensures NoTables(old(m.kern)) ==> NoTables(m.kern)
    ensures m.stuck == old(m.stuck) && !m.dead ==> NoMarks(m.kern)
    ensures NoMarks(old(m.kern)) ==> m.kern == old(m.kern)
    ensures old(m.faults) <= m.faults && (m.faults == old(m.faults) ==> m.stuck == old(m.stuck))
    ensures m.kern.groups == old(m.kern).groups
  {
    for slot := SLOT_MIN to SLOT_MAX + 1
      invariant m.Valid() && old(m.trace) <= m.trace && (old(m.dead) ==> m.dead) && old(m.stuck) <= m.stuck
      invariant old(m.faults) <= m.faults && (m.faults == old(m.faults) ==> m.stuck == old(m.stuck))
      invariant m.kern.groups == old(m.kern).groups
      invariant OnlyAdoption(old(m.kern), m.kern)
      invariant forall s: nat | IsSlot(s) :: m.kern.slots[s].nft == old(m.kern).slots[s].nft
      invariant m.stuck == old(m.stuck) && !m.dead ==>
                  forall s: nat | 1 <= s < slot :: !m.kern.slots[s].mark4 && !m.kern.slots[s].mark6
      invariant NoMarks(old(m.kern)) ==> m.kern == old(m.kern)
    {
      SweepSlot(m, slot);
    }
  }

  /** The rmdir loop of sweep_leftovers: the kernel refuses it for a group with members. */
  method SweepGroups(m: Host)
    requires m.Valid()
    modifies m`kern, m`dead, m`trace, m`faults, m`stuck
    ensures m.Valid() && old(m.trace) <= m.trace && (old(m.dead) ==> m.dead) && old(m.stuck) <= m.stuck
    ensures m.kern == old(m.kern).(groups := m.kern.groups)
    ensures m.kern.groups.Keys <= old(m.kern).groups.Keys
    ensures forall g | g in old(m.kern).groups && old(m.kern).groups[g] != {} ::
              g in m.kern.groups && m.kern.groups[g] == old(m.kern).groups[g]
    ensures m.stuck == old(m.stuck) && !m.dead ==> NoEmptyGroups(m.kern)
    ensures NoEmptyGroups(old(m.kern)) ==> m.kern == old(m.kern)
    ensures old(m.faults) <= m.faults && (m.faults == old(m.faults) ==> m.stuck == old(m.stuck))
  {
    ghost var k0 := m.kern;
    var todo := m.kern.groups.Keys;
    while todo != {}
      invariant m.Valid() && old(m.trace) <= m.trace && (old(m.dead) ==> m.dead) && old(m.stuck) <= m.stuck
      invariant old(m.faults) <= m.faults && (m.faults == old(m.faults) ==> m.stuck == old(m.stuck))
      invariant m.kern == k0.(groups := m.kern.groups) && todo <= m.kern.groups.Keys <= k0.groups.Keys
      invariant forall g | g in m.kern.groups :: m.kern.groups[g] == k0.groups[g]
      invariant forall g | g in k0.groups && k0.groups[g] != {} :: g in m.kern.groups
      invariant m.stuck == old(m.stuck) && !m.dead ==> forall g | g in m.kern.groups && g !in todo :: k0.groups[g] != {}
      invariant NoEmptyGroups(k0) ==> m.kern == k0
      decreases todo
    {
      var g :| g in todo;
      todo := todo - {g};
      if m.kern.groups[g] == {} {
        var ok := m.RunGroups(m.kern.groups - {g}, SLOT_MIN, |m.trace|);
        m.stuck := m.stuck + if ok || m.dead then 0 else 1;
      }
    }
  }

  lemma AdoptionPruned(k: Kernel, k': Kernel, busy: set<Hash>, nets: set<nat>)
    requires OnlyAdoption(k, k')
    ensures Pruned(k, k', busy, nets)
  {
  }

  // -------------------------------------------------------------- reset

  function Inside(procs: seq<Proc>, spaces: set<Hash>, uid: nat): set<Pid> {
    set p | p in procs && p.uid == uid && p.netns.Some? && p.netns.value in spaces :: p.pid
  }

  /** Stop the processes of `uid` in any InterMux namespace. */
  method KillInside(m: Host, uid: nat)
    requires m.Valid()
    modifies m`procs, m`signalled, m`left
    ensures m.Valid() && SignalledOnly(old(m.procs), uid, old(m.signalled), m.signalled)
    ensures Told(m.me, old(m.procs), uid, (iset p | RunsInside(old(m.procs), m.kern.namespaces, uid, p)),
                 old(m.signalled), m.signalled)
  {
    var spaces := m.kern.namespaces;
    var pids := Listed(Inside(m.procs, spaces, uid));
    assert forall p | p in pids :: p in Elems(pids);
    InsideAre(m.procs, spaces, uid, pids);
    var targets, survivors := TerminateOwned(m, pids, uid, false);
  }

  lemma InsideAre(procs: seq<Proc>, spaces: set<Hash>, uid: nat, pids: seq<Pid>)
    requires Elems(pids) == Inside(procs, spaces, uid)
    ensures (iset p | p in pids) == (iset p | RunsInside(procs, spaces, uid, p))
  {
  }

  /** Adoptions are released and every loaded marking table is deleted. */
  method DropAdoptions(m: Host, st: State)
    requires m.Valid() && st.Rec() == m.disk
    modifies m`kern, m`dead, m`trace, m`faults, m`stuck
    ensures m.Valid() && old(m.trace) <= m.trace && (old(m.dead) ==> m.dead) && old(m.stuck) <= m.stuck
    ensures OnlyAdoption(old(m.kern), m.kern)
    ensures m.stuck == old(m.stuck) && !m.dead ==> NoTables(m.kern) && GroupsGone(m.kern, m.disk.adoptions)
    ensures NoTables(old(m.kern)) && m.disk.adoptions == [] ==> m.kern == old(m.kern)
    ensures old(m.faults) <= m.faults && (m.faults == old(m.faults) ==> m.stuck == old(m.stuck))
  {
    m.Now();
    forall a | a in st.adoptions ensures IsSlot(a.slot) {
      var i :| 0 <= i < |m.disk.adoptions| && m.disk.adoptions[i] == a;
      assert GoodAdoption(m.disk.adoptions[i]);
    }
    ReleaseAll(m, st.adoptions);
    DeleteTables(m);
  }

  /** sweep_leftovers. */
  method Sweep(m: Host)
    requires m.Valid()
    modifies m`kern, m`dead, m`trace, m`faults, m`stuck
    ensures m.Valid() && old(m.trace) <= m.trace && (old(m.dead) ==> m.dead) && old(m.stuck) <= m.stuck
    ensures OnlyAdoption(old(m.kern), m.kern) && m.kern.groups.Keys <= old(m.kern).groups.Keys
    ensures m.stuck == old(m.stuck) && !m.dead ==>
              NoMarks(m.kern) && NoEmptyGroups(m.kern) && (NoTables(old(m.kern)) ==> NoTables(m.kern))
    ensures NoMarks(old(m.kern)) && NoEmptyGroups(old(m.kern)) ==> m.kern == old(m.kern)
    ensures old(m.faults) <= m.faults && (m.faults == old(m.faults) ==> m.stuck == old(m.stuck))
  {
    SweepSlots(m);
    SweepGroups(m);
  }

  /** Nothing of an adoption is left but groups that still have members. */
  ghost predicate AdoptionsGone(k: Kernel, xs: seq<Adoption>) { SlotsSwept(k) && NoEmptyGroups(k) && GroupsGone(k, xs) }

  /** A reset has nothing to do. */
  ghost predicate Clean(nm: Naming, r: Saved, k: Kernel, busy: set<Hash>) {
    OnlyStaying(k, busy, NetsOf(nm, r, busy)) && (forall b | b in r.bindings :: b.ns in busy)
    && r.adoptions == [] && SlotsSwept(k) && NoEmptyGroups(k)
  }

  /** Everything but the save; the kernel steps of reset in their order. */
  method ResetKernel(m: Host, st: State, busy: set<Hash>, nets: set<nat>)
    requires m.Valid() && st.Rec() == m.disk && nets == NetsOf(m.nm, m.disk, busy)
    modifies m`kern, m`dead, m`trace, m`faults, m`lost, m`stuck
    ensures m.Valid() && old(m.trace) <= m.trace && (old(m.dead) ==> m.dead)
    ensures old(m.lost) <= m.lost && old(m.stuck) <= m.stuck
    ensures Pruned(old(m.kern), m.kern, busy, nets)
    ensures m.lost == old(m.lost) && !m.dead ==> OnlyStaying(m.kern, busy, nets)
    ensures m.stuck == old(m.stuck) && !m.dead ==> AdoptionsGone(m.kern, m.disk.adoptions)
    ensures Clean(m.nm, m.disk, old(m.kern), busy) ==> m.kern == old(m.kern)
    ensures old(m.faults) <= m.faults
    ensures m.faults == old(m.faults) ==> m.lost == old(m.lost) && m.stuck == old(m.stuck)
  {
    ghost var k0 := m.kern;
    DropAdoptions(m, st);
    ghost var k1 := m.kern;
    TearAll(m, st.bindings, busy, nets);
    ghost var k2 := m.kern;
    Sweep(m);
    AdoptionPruned(k0, k1, busy, nets);
    PrunedTwice(k0, k1, k2, busy, nets);
    AdoptionPruned(k2, m.kern, busy, nets);
    PrunedTwice(k0, k2, m.kern, busy, nets);
  }

  lemma ResetStored(nm: Naming, r: Saved, busy: set<Hash>)
    requires Stored(nm, r)
    ensures Stored(nm, ResetRecord(nm, r, busy))
  {
  }

  lemma ResetInv(nm: Naming, r: Saved, k: Kernel, busy: set<Hash>, lost: nat)
    requires Inv(nm, World(r, k, lost)) && (lost == 0 ==> OnlyStaying(k, busy, NetsOf(nm, r, busy)))
    ensures Inv(nm, World(ResetRecord(nm, r, busy), k, lost))
  {
    ResetGood(nm, r, busy);
    ResetStored(nm, r, busy);
    if lost == 0 {
      ResetCovered(nm, r, k, busy);
    }
  }

  /** `l0` is the number of removals lost before the reset. */
  method SaveReset(m: Host, st: State, busy: set<Hash>, ghost l0: nat) returns (ok: bool)
    requires m.Valid() && st.Rec() == m.disk && l0 <= m.lost
    requires m.lost == l0 && !m.dead ==> OnlyStaying(m.kern, busy, NetsOf(m.nm, m.disk, busy))
    modifies m`dead, m`trace, m`faults, m`disk
    ensures m.Valid() && old(m.trace) <= m.trace && (ok ==> !m.dead && !old(m.dead))
    ensures m.disk == if ok then ResetRecord(m.nm, old(m.disk), busy) else old(m.disk)
    ensures m.faults == old(m.faults) + if ok then 0 else 1
  {
    m.Now();
    if !m.dead {
      ResetInv(m.nm, m.disk, m.kern, busy, m.lost);
    }
    var kept := new State(ResetRecord(m.nm, st.Rec(), busy));
    ok := m.Save(kept);
  }

  /** reset from the busy namespaces on. */
  method ResetFrom(m: Host, st: State, busy: set<Hash>) returns (ok: bool)
    requires m.Valid() && st.Rec() == m.disk
    modifies m`kern, m`dead, m`trace, m`faults, m`lost, m`stuck, m`disk
    ensures m.Valid() && old(m.trace) <= m.trace && old(m.lost) <= m.lost && old(m.stuck) <= m.stuck
    ensures m.disk == if ok then ResetRecord(m.nm, old(m.disk), busy) else old(m.disk)
    ensures Pruned(old(m.kern), m.kern, busy, NetsOf(m.nm, old(m.disk), busy))
    ensures ok && m.lost == old(m.lost) ==> OnlyStaying(m.kern, busy, NetsOf(m.nm, old(m.disk), busy))
    ensures ok && m.stuck == old(m.stuck) ==> AdoptionsGone(m.kern, old(m.disk).adoptions)
    ensures Clean(m.nm, old(m.disk), old(m.kern), busy) ==> m.kern == old(m.kern)
    ensures old(m.faults) <= m.faults && (m.faults == old(m.faults) ==>
               ok && m.lost == old(m.lost) && m.stuck == old(m.stuck))
  {
    ResetKernel(m, st, busy, NetsOf(m.nm, st.Rec(), busy));
    ok := SaveReset(m, st, busy, old(m.lost));
  }

  /** A complete reset leaves nothing for the next one. */
  lemma ResetLeavesClean(nm: Naming, r: Saved, k: Kernel, busy: set<Hash>)
    requires Good(nm, r) && OnlyStaying(k, busy, NetsOf(nm, r, busy)) && SlotsSwept(k) && NoEmptyGroups(k)
    ensures Clean(nm, ResetRecord(nm, r, busy), k, busy)
  {
    ResetTwiceSame(nm, r, busy);
  }

  /** reset; `kill` is the user whose processes in InterMux namespaces are stopped first, if any. `busy` are
      the namespaces that then still hold processes: what belongs to them is as before, everything else goes. */
  method ResetAll(m: Host, kill: Option<nat>) returns (ok: bool, busy: set<Hash>)
    requires m.Valid()
    modifies m
    ensures m.Valid() && old(m.trace) <= m.trace && old(m.lost) <= m.lost && old(m.stuck) <= m.stuck
    ensures if kill.Some? then SignalledOnly(old(m.procs), kill.value, old(m.signalled), m.signalled)
                               && Told(m.me, old(m.procs), kill.value,
                                       (iset p | RunsInside(old(m.procs), old(m.kern).namespaces, kill.value, p)),
                                       old(m.signalled), m.signalled)
            else m.signalled == old(m.signalled) && m.procs == old(m.procs)
    ensures forall h :: h in busy <==> h in old(m.kern).namespaces && exists p :: p in m.procs && p.netns == Some(h)
    ensures ok ==> ResetLeaves(m.nm, old(m.disk), m.disk, busy)
    ensures busy == BusySet(m.procs, old(m.kern).namespaces)
    ensures m.disk == if ok then ResetRecord(m.nm, old(m.disk), busy) else old(m.disk)
    ensures Pruned(old(m.kern), m.kern, busy, NetsOf(m.nm, old(m.disk), busy))
    ensures KeptPlumbing(m.nm, old(m.disk), old(m.kern), m.kern,
               old(m.disk).subnets.Keys - Staying(m.nm, old(m.disk), busy))
    ensures ok && m.lost == old(m.lost) ==> OnlyStaying(m.kern, busy, NetsOf(m.nm, old(m.disk), busy))
    ensures ok && m.lost == old(m.lost) ==>
              (Covered(m.nm, m.disk, m.kern)
               <==> busy <= Names(m.nm, old(m.disk)) && MasqueradesOwned(m.nm, old(m.disk), old(m.kern).chains, busy))
    ensures ok && m.stuck == old(m.stuck) ==> AdoptionsGone(m.kern, old(m.disk).adoptions)
    ensures ok && m.lost == old(m.lost) && m.stuck == old(m.stuck) ==> Clean(m.nm, m.disk, m.kern, busy)
    ensures Clean(m.nm, old(m.disk), old(m.kern), busy) ==> m.kern == old(m.kern)
    ensures old(m.faults) <= m.faults && (m.faults == old(m.faults) ==>
               ok && m.lost == old(m.lost) && m.stuck == old(m.stuck))
  {
    m.Now();
    ghost var r0, k0 := m.disk, m.kern;
    var st := m.Load();
    if kill.Some? {
      KillInside(m, kill.value);
    }
    busy := BusySet(m.procs, m.kern.namespaces);
    ok := ResetFrom(m, st, busy);
    PrunedKeeps(m.nm, r0, k0, m.kern, busy);
    BusySetIs(m.procs, k0.namespaces);
    ResetRecordIs(m.nm, r0, busy);
    if ok && m.lost == old(m.lost) {
      ResetCoversIff(m.nm, r0, k0, m.kern, busy);
      if m.stuck == old(m.stuck) {
        ResetLeavesClean(m.nm, r0, m.kern, busy);
      }
    }
  }

  lemma BusyAgain(procs: seq<Proc>, k0: Kernel, k1: Kernel, busy: set<Hash>, nets: set<nat>)
    requires busy == BusySet(procs, k0.namespaces) && Pruned(k0, k1, busy, nets) && OnlyStaying(k1, busy, nets)
    ensures BusySet(procs, k1.namespaces) == busy
  {
  }

  /** A second reset straight after a complete one, whichever of its steps fail and whatever failed before the
      first, changes neither the record nor anything in the kernel. `lost1` and `stuck1` are the counts of failed
      removals after the first. */
  method ResetTwice(m: Host) returns (ok1: bool, ok2: bool, ghost r1: Saved, ghost k1: Kernel, ghost lost1: nat,
                                      ghost stuck1: nat)
    requires m.Valid()
    modifies m
    ensures m.Valid() && old(m.trace) <= m.trace && old(m.lost) <= lost1 <= m.lost && old(m.stuck) <= stuck1 <= m.stuck
    ensures ok1 ==> r1 == ResetRecord(m.nm, old(m.disk), BusySet(m.procs, old(m.kern).namespaces))
    ensures ok1 && lost1 == old(m.lost) && stuck1 == old(m.stuck) ==> m.disk == r1 && m.kern == k1
    ensures m.faults == old(m.faults) ==> ok1 && ok2 && m.lost == old(m.lost) && m.stuck == old(m.stuck)
  {
    ghost var r0, k0 := m.disk, m.kern;
    m.Now();
    var busy1, busy2;
    ok1, busy1 := ResetAll(m, None);
    r1, k1, lost1, stuck1 := m.disk, m.kern, m.lost, m.stuck;
    if ok1 && lost1 == old(m.lost) && stuck1 == old(m.stuck) {
      ResetTwiceSame(m.nm, r0, busy1);
      BusyAgain(m.procs, k0, k1, busy1, NetsOf(m.nm, r0, busy1));
    }
    ok2, busy2 := ResetAll(m, None);
  }
}
