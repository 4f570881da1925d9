/** The other actions on bindings (intermux/engine.py): restart, move, remove, settings and the route pass. */
module Actions {
  import opened Basics
  import opened Subnets
  import opened Procs
  import opened Record
  import opened Machine
  import opened Idle
  import opened Stop
  import opened Build
  import opened Engine
  import StateFile

  // -------------------------------------------------------------- restart

  lemma RequestedSame(r: Saved, q: Request)
    requires q.iface in r.subnets && q.dns == KeepDns && q.limit == None
    ensures Requested(r, q, r.subnets[q.iface]) == r
  {
  }

  function Again(iface: string, b: Binding, uid: nat, foreign: seq<Net>): Request {
    Request(iface, b.app, uid, if b.separate then Separate else Ask, KeepDns, b.separate, None, foreign)
  }

  method BindAgain(m: Host, iface: string, was: Binding, uid: nat, foreign: seq<Net>) returns (r: BindResult)
    requires m.Valid() && iface == was.iface && was in m.disk.bindings && Derived(m.nm, m.disk, was) && was.app != ""
    requires Proper(foreign)
    modifies m
    ensures m.Valid() && old(m.trace) <= m.trace && m.signalled == old(m.signalled) && m.left == old(m.left)
    ensures !(r.Refused? && r.why.StillRunning?)
    ensures KeptPlumbing(m.nm, old(m.disk), old(m.kern), m.kern, {iface})
    ensures m.disk == if r.Bound? then WithBinding(old(m.disk), r.b) else old(m.disk)
    ensures r.Bound? ==> r.b == was.(pid := r.b.pid)
    ensures r != Refused(NoBindingFor)
  {
    m.Now();
    var q := Again(iface, was, uid, foreign);
    RequestedSame(m.disk, q);
    assert HasBinding(m.disk.bindings, iface);
    r := Bind(m, q);
  }

  /** The entry's processes, and only what is below them, were told to go. */
  ghost predicate StoppedFirst(m: Host, procs: seq<Proc>, spaces: set<Hash>, bs: seq<Binding>, iface: string,
                               app: string, uid: nat, before: seq<Pid>)
    reads m
  {
    exists b :: b in bs && b.iface == iface && b.app == app
                && Told(m.me, procs, uid, OwnPids(m, procs, spaces, bs, b, uid), before, m.signalled)
  }

  /** restart_app: the application comes back where it was, with its profile, and only its pid
      changes in the record; when the restart fails the record stays. */
  method RestartApp(m: Host, iface: string, app: string, uid: nat, foreign: seq<Net>) returns (r: BindResult)
    requires m.Valid() && Proper(foreign)
    modifies m
    ensures m.Valid() && old(m.trace) <= m.trace
    ensures SignalledOnly(old(m.procs), uid, old(m.signalled), m.signalled)
    ensures KeptPlumbing(m.nm, old(m.disk), old(m.kern), m.kern, {iface})
    ensures r.Bound? ==> var was := FindBinding(old(m.disk).bindings, iface, app);
                         was.Some? && r.b == was.value.(pid := r.b.pid) && was.value in old(m.disk).bindings
                         && was.value.iface == iface && was.value.app == app
    ensures r.Bound? ==> BindingReplaced(old(m.disk), m.disk, r.b)
    ensures m.disk == if r.Bound? then WithBinding(old(m.disk), r.b) else old(m.disk)
    ensures r == Refused(NoBindingFor) <==> FindBinding(old(m.disk).bindings, iface, app) == None
    ensures r.Refused? && r.why.NoBindingFor? ==> m.kern == old(m.kern) && m.signalled == old(m.signalled)
    ensures r != Refused(NoBindingFor) ==>
              StoppedFirst(m, old(m.procs), old(m.kern).namespaces, old(m.disk).bindings, iface, app, uid,
                           old(m.signalled))
    ensures r != Refused(NoBindingFor) ==>
              if m.left != [] then r == Refused(StillRunning(m.left)) else !(r.Refused? && r.why.StillRunning?)
  {
    m.Now();
    FoundBinding(m.disk.bindings, iface, app);
    ghost var r0 := m.disk;
    var st := m.Load();
    var found := FindBinding(st.bindings, iface, app);
    var stopped := StopApp(m, iface, app, uid);
    if found == None {
      r := Refused(NoBindingFor);
    } else if stopped.still != [] {
      r := Refused(StillRunning(stopped.still));
    } else {
      assert Derived(m.nm, r0, found.value);
      r := BindAgain(m, iface, found.value, uid, foreign);
      if r.Bound? {
        WithBindingIs(r0, r.b);
      }
    }
  }

  // -------------------------------------------------------------- remove_namespace

  function WithoutBindings(r: Saved, iface: string): Saved {
    r.(bindings := Filter(r.bindings, (b: Binding) => b.iface != iface))
  }

  lemma WithoutBindingsGood(nm: Naming, r: Saved, keep: Binding -> bool)
    requires Good(nm, r)
    ensures Good(nm, r.(bindings := Filter(r.bindings, keep)))
  {
    FilterApps(r.bindings, keep);
    var r1 := r.(bindings := Filter(r.bindings, keep));
    forall b | b in r1.bindings ensures Derived(nm, r1, b) {
      assert Derived(nm, r, b);
    }
  }

  /** What a removal leaves in the record: everything but the interface. */
  ghost predicate InterfaceRemoved(r0: Saved, r1: Saved, iface: string) {
    && (forall b | b in r0.bindings :: b in r1.bindings <==> b.iface != iface) && Within(r1.bindings, r0.bindings)
    && SettingsGone(r1, iface) && (forall i | i != iface :: SettingsSame(r0, r1, i)) && r1.adoptions == r0.adoptions
  }

  lemma RemovedIs(r: Saved, iface: string)
    ensures InterfaceRemoved(r, Forget(WithoutBindings(r, iface), iface), iface)
  {
    FilterWithin(r.bindings, (b: Binding) => b.iface != iface);
  }

  datatype RemoveResult = NoSpace | Kept(still: seq<Pid>) | Removed | RemoveFailed

  method MineIn(m: Host, h: Hash, uid: nat) returns (pids: seq<Pid>)
    ensures forall p | p in pids :: Owned(m.procs, uid, p)
    ensures (iset p | p in pids) == (iset p | InSpaceOf(m.procs, m.kern.namespaces, h, Some(uid), p))
  {
    SpaceIff(m.procs, m.kern.namespaces, h, Some(uid));
    pids := Listed(SpaceOf(m.procs, m.kern.namespaces, h, Some(uid)));
    assert forall p :: p in pids <==> p in Elems(pids);
  }

  /** Stop what the user runs in the namespace; who is in it then is reported. */
  method StopMine(m: Host, h: Hash, uid: nat) returns (still: seq<Pid>)
    requires m.Valid()
    modifies m`procs, m`signalled, m`left
    ensures m.Valid() && SignalledOnly(old(m.procs), uid, old(m.signalled), m.signalled)
    ensures Told(m.me, old(m.procs), uid, (iset p | InSpaceOf(old(m.procs), m.kern.namespaces, h, Some(uid), p)),
                 old(m.signalled), m.signalled)
    ensures still != [] <==> exists p :: InSpaceOf(m.procs, m.kern.namespaces, h, None, p)
    ensures still != [] && m.left != [] ==> still == m.left
  {
    var mine := MineIn(m, h, uid);
    var targets, survivors := TerminateOwned(m, mine, uid, false);
    SpaceIff(m.procs, m.kern.namespaces, h, None);
    var there := m.PidsIn(h);
    if there == {} { return []; }
    still := survivors;
    if survivors == [] { still := Listed(there); }
  }

  /** remove_namespace: stop what the user runs there, then remove everything; other users' processes keep it. */
  method RemoveNamespace(m: Host, iface: string, uid: nat) returns (r: RemoveResult)
    requires m.Valid()
    modifies m
    ensures m.Valid() && old(m.trace) <= m.trace
    ensures SignalledOnly(old(m.procs), uid, old(m.signalled), m.signalled)
    ensures KeptPlumbing(m.nm, old(m.disk), old(m.kern), m.kern, {iface})
    ensures r.NoSpace? <==> iface !in old(m.disk).subnets
    ensures if r.NoSpace? then m.signalled == old(m.signalled)
            else Told(m.me, old(m.procs), uid,
                      (iset p | InSpaceOf(old(m.procs), old(m.kern).namespaces, m.nm.hash(iface), Some(uid), p)),
                      old(m.signalled), m.signalled)
    ensures r.Kept? ==> r.still != [] && (m.left != [] ==> r.still == m.left)
    ensures r.Removed? ==> InterfaceRemoved(old(m.disk), m.disk, iface)
    ensures r.NoSpace? || r.Kept? ==> m.kern == old(m.kern)
    ensures m.disk == if r.Removed? then Forget(WithoutBindings(old(m.disk), iface), iface) else old(m.disk)
    ensures r.Kept? || r.Removed? || r.RemoveFailed? ==>
              (r.Kept? <==> exists p :: InSpaceOf(m.procs, old(m.kern).namespaces, m.nm.hash(iface), None, p))
    ensures r.Removed? && m.lost == old(m.lost) ==>
              PlumbingOf(m.kern, iface, old(m.disk).subnets[iface], m.nm.hash(iface)) == NO_PLUMBING
    ensures old(m.faults) <= m.faults && (m.faults == old(m.faults) ==> !r.RemoveFailed? && m.lost == old(m.lost))
  {
    m.Now();
    var st := m.Load();
    if iface !in st.subnets && !HasBinding(st.bindings, iface) { return NoSpace; }
    assert iface in st.subnets by {
      if b :| b in st.bindings && b.iface == iface { assert Derived(m.nm, m.disk, b); }
    }
    var still := StopMine(m, m.nm.hash(iface), uid);
    if still != [] { return Kept(still); }
    RemovedIs(m.disk, iface);
    r := RemoveIdle(m, st, iface);
  }

  method RemoveIdle(m: Host, st: State, iface: string) returns (r: RemoveResult)
    requires m.Valid() && st.Rec() == m.disk && iface in st.subnets
    modifies m`disk, m`kern, m`dead, m`trace, m`faults, m`lost, st
    ensures m.Valid() && old(m.trace) <= m.trace && (r.Removed? || r.RemoveFailed?)
    ensures KeptPlumbing(m.nm, old(m.disk), old(m.kern), m.kern, {iface})
    ensures m.disk == if r.Removed? then Forget(WithoutBindings(old(m.disk), iface), iface) else old(m.disk)
    ensures r.Removed? && m.lost == old(m.lost) ==>
              PlumbingOf(m.kern, iface, old(m.disk).subnets[iface], m.nm.hash(iface)) == NO_PLUMBING
    ensures old(m.faults) <= m.faults && (m.faults == old(m.faults) ==> r.Removed? && m.lost == old(m.lost))
  {
    m.Now();
    WithoutBindingsGood(m.nm, m.disk, (b: Binding) => b.iface != iface);
    st.DropBindings((b: Binding) => b.iface != iface);
    assert st.Rec() == WithoutBindings(m.disk, iface);
    ghost var k, n, l0 := m.kern, st.subnets[iface], m.lost;
    ghost var cuts;
    var ok;
    ok, cuts := m.TeardownPlumbing(iface, st.subnets[iface], m.nm.hash(iface));
    UnplumbSpares(k, iface, n, m.nm.hash(iface), cuts);
    SparedKeeps(m.nm, m.disk, k, m.kern, iface);
    if !ok { return RemoveFailed; }
    r := ForgetRemoved(m, st, iface, k, m.lost == l0);
  }

  /** Forgetting an interface after its teardown keeps the invariant; `r0` is the saved record. */
  lemma ForgottenInv(nm: Naming, r0: Saved, r: Saved, k: Kernel, k': Kernel, iface: string, lost: nat, clean: bool)
    requires CollisionFree(nm) && Inv(nm, World(r0, k', lost)) && Good(nm, r) && Stored(nm, r) && ChainsOnce(k.chains)
    requires iface in r.subnets && !HasBinding(r.bindings, iface)
    requires lost == 0 ==> clean && Covered(nm, r, k)
    requires clean ==> k' == Unplumb(k, iface, r.subnets[iface], nm.hash(iface), ALL_CUTS)
    ensures Inv(nm, World(Forget(r, iface), k', lost))
    ensures clean ==> PlumbingOf(k', iface, r.subnets[iface], nm.hash(iface)) == NO_PLUMBING
  {
    ForgetKeepsGood(nm, r, iface);
    TornIsForgotten(nm, r, k, iface);
  }

  method ForgetRemoved(m: Host, st: State, iface: string, ghost k: Kernel, ghost clean: bool) returns (r: RemoveResult)
    requires m.Valid() && Good(m.nm, st.Rec()) && iface in st.subnets && !HasBinding(st.bindings, iface)
    requires Stored(m.nm, st.Rec()) && ChainsOnce(k.chains)
    requires m.lost == 0 ==> clean && Covered(m.nm, st.Rec(), k)
    requires clean ==> m.kern == Unplumb(k, iface, st.subnets[iface], m.nm.hash(iface), ALL_CUTS)
    modifies m`disk, m`dead, m`trace, m`faults, st
    ensures m.Valid() && old(m.trace) <= m.trace && (r.Removed? || r.RemoveFailed?)
    ensures m.disk == if r.Removed? then Forget(old(st.Rec()), iface) else old(m.disk)
    ensures clean ==> PlumbingOf(m.kern, iface, old(st.subnets)[iface], m.nm.hash(iface)) == NO_PLUMBING
    ensures old(m.faults) <= m.faults && (m.faults == old(m.faults) ==> r.Removed?)
  {
    m.Now();
    ForgottenInv(m.nm, m.disk, st.Rec(), k, m.kern, iface, m.lost, clean);
    st.ForgetIface(iface);
    var ok := m.Save(st);
    r := if ok then Removed else RemoveFailed;
  }

  // -------------------------------------------------------------- move_app

  /** The application did not exit. */
  predicate StillThere(r: MoveResult) { r.NotMoved? && r.why.Refused? && r.why.why.StillRunning? }

  datatype MoveResult = NotMoved(why: BindResult) | SameInterface | Moved(b: Binding) | OldEntryStays(b: Binding)

  function WithoutEntry(r: Saved, iface: string, app: string): Saved {
    r.(bindings := Filter(r.bindings, (b: Binding) => !(b.iface == iface && b.app == app)))
  }

  /** Settings of this interface may have gone, the others are as they were. */
  ghost predicate SettingsDropped(r0: Saved, r1: Saved, iface: string, gone: bool) {
    (forall i | i != iface :: SettingsSame(r0, r1, i))
    && if gone then SettingsGone(r1, iface) else SettingsSame(r0, r1, iface)
  }

  lemma DroppedIs(r: Saved, iface: string, app: string)
    ensures SettingsDropped(r, r, iface, false) && SettingsDropped(r, WithoutEntry(r, iface, app), iface, false)
    ensures SettingsDropped(r, Forget(WithoutEntry(r, iface, app), iface), iface, true)
  {
  }

  /** The tail of move_app: drop the old entry, and the old namespace when nothing else uses it. */
  method DropMoved(m: Host, iface: string, app: string) returns (ok: bool, ghost torn: bool)
    requires m.Valid()
    modifies m`disk, m`kern, m`dead, m`trace, m`faults, m`lost
    ensures m.Valid() && old(m.trace) <= m.trace
    ensures KeptPlumbing(m.nm, old(m.disk), old(m.kern), m.kern, {iface})
    ensures torn <==> iface in old(m.disk).subnets && !HasBinding(WithoutEntry(old(m.disk), iface, app).bindings, iface)
                      && !old(m.Busy(m.nm.hash(iface)))
    ensures !torn ==> m.kern == old(m.kern)
    ensures m.disk == if !ok then old(m.disk)
                      else if torn then Forget(WithoutEntry(old(m.disk), iface, app), iface)
                      else WithoutEntry(old(m.disk), iface, app)
    ensures SettingsDropped(old(m.disk), m.disk, iface, ok && torn)
    ensures ok && torn && m.lost == old(m.lost) ==>
              PlumbingOf(m.kern, iface, old(m.disk).subnets[iface], m.nm.hash(iface)) == NO_PLUMBING
    ensures old(m.faults) <= m.faults && (m.faults == old(m.faults) ==> ok && m.lost == old(m.lost))
  {
    m.Now();
    WithoutBindingsGood(m.nm, m.disk, (b: Binding) => !(b.iface == iface && b.app == app));
    var st := m.Load();
    st.DropBindings((b: Binding) => !(b.iface == iface && b.app == app));
    assert st.Rec() == WithoutEntry(m.disk, iface, app);
    DroppedIs(m.disk, iface, app);
    ok, torn := TearUnused(m, st, iface);
  }

  method TearUnused(m: Host, st: State, iface: string) returns (ok: bool, ghost torn: bool)
    requires m.Valid() && Good(m.nm, st.Rec()) && Stored(m.nm, st.Rec()) && st.subnets == m.disk.subnets
    modifies m`disk, m`kern, m`dead, m`trace, m`faults, m`lost, st
    ensures m.Valid() && old(m.trace) <= m.trace
    ensures KeptPlumbing(m.nm, old(m.disk), old(m.kern), m.kern, {iface})
    ensures torn <==> iface in old(st.subnets) && !HasBinding(old(st.bindings), iface) && !old(m.Busy(m.nm.hash(iface)))
    ensures !torn ==> m.kern == old(m.kern)
    ensures m.disk == if !ok then old(m.disk) else if torn then Forget(old(st.Rec()), iface) else old(st.Rec())
    ensures ok && torn && m.lost == old(m.lost) ==>
              PlumbingOf(m.kern, iface, old(st.subnets)[iface], m.nm.hash(iface)) == NO_PLUMBING
    ensures old(m.faults) <= m.faults && (m.faults == old(m.faults) ==> ok && m.lost == old(m.lost))
  {
    m.Now();
    torn := false;
    if iface in st.subnets && !HasBinding(st.bindings, iface) && !m.Busy(m.nm.hash(iface)) {
      torn := true;
      TeardownSwallowed(m, st, iface, st.subnets[iface]);
      m.Now();
    }
    ok := m.Save(st);
  }

  lemma KeptInTurn(nm: Naming, r0: Saved, r1: Saved, k0: Kernel, k1: Kernel, k2: Kernel, a: string, b: string)
    requires KeptPlumbing(nm, r0, k0, k1, {a}) && KeptPlumbing(nm, r1, k1, k2, {b})
    requires forall i | i != a :: SettingsSame(r0, r1, i)
    ensures KeptPlumbing(nm, r0, k0, k2, {a, b})
  {
    forall i | i in r0.subnets && i != a ensures Recorded(r1, i, r0.subnets[i]) {
      assert SettingsSame(r0, r1, i);
    }
  }

  /** The entries stay but those of the application on these interfaces. */
  ghost predicate OthersStay(before: seq<Binding>, after: seq<Binding>, ifaces: set<string>, app: string) {
    forall b | b in before && !(b.iface in ifaces && b.app == app) :: b in after
  }

  lemma BoundKeepsOthers(r: Saved, q: Request, n: nat, b: Binding)
    ensures var bs := WithBinding(Requested(r, q, n), b).bindings;
            b in bs && OthersStay(r.bindings, bs, {b.iface}, b.app)
  {
  }

  lemma DropKeepsOthers(before: seq<Binding>, r: Saved, iface: string, to: string, app: string)
    ensures OthersStay(before, r.bindings, {to}, app) ==>
              OthersStay(before, WithoutEntry(r, iface, app).bindings, {iface, to}, app)
    ensures forall b | b in WithoutEntry(r, iface, app).bindings :: !(b.iface == iface && b.app == app)
    ensures forall b | b in r.bindings && b.iface != iface :: b in WithoutEntry(r, iface, app).bindings
  {
  }

  /** The bind of move_app: the same application and profile on the other interface. */
  method BindTo(m: Host, was: Binding, to: string, uid: nat, foreign: seq<Net>) returns (r: BindResult)
    requires m.Valid() && to in m.nm.known && Proper(foreign) && was.app != ""
    modifies m
    ensures m.Valid() && old(m.trace) <= m.trace && m.signalled == old(m.signalled) && r != Refused(NoBindingFor)
    ensures m.left == old(m.left) && !(r.Refused? && r.why.StillRunning?)
    ensures KeptPlumbing(m.nm, old(m.disk), old(m.kern), m.kern, {to}) && old(m.faults) <= m.faults
    ensures !r.Bound? ==> m.disk.bindings == old(m.disk).bindings
    ensures r.Bound? ==> r.b.iface == to && r.b.app == was.app && r.b.separate == was.separate
                         && r.b in m.disk.bindings
    ensures r.Bound? ==> OthersStay(old(m.disk).bindings, m.disk.bindings, {to}, was.app)
    ensures forall i | i != to :: SettingsSame(old(m.disk), m.disk, i)
  {
    ghost var r0 := m.disk;
    r := Bind(m, Again(to, was, uid, foreign));
    if r.Bound? {
      BoundKeepsOthers(r0, Again(to, was, uid, foreign), r.b.net, r.b);
    }
  }

  /** The steps of move_app once the application has stopped. */
  method BindThenDrop(m: Host, iface: string, was: Binding, to: string, uid: nat, foreign: seq<Net>)
      returns (r: MoveResult)
    requires m.Valid() && iface != to && to in m.nm.known && Proper(foreign) && was.app != ""
    modifies m
    ensures m.Valid() && old(m.trace) <= m.trace && m.signalled == old(m.signalled) && m.left == old(m.left)
    ensures r != NotMoved(Refused(NoBindingFor)) && !StillThere(r)
    ensures KeptPlumbing(m.nm, old(m.disk), old(m.kern), m.kern, {to, iface})
    ensures !r.SameInterface? && (r.NotMoved? ==> m.disk.bindings == old(m.disk).bindings)
    ensures r.Moved? || r.OldEntryStays? ==>
              r.b.iface == to && r.b.app == was.app && r.b.separate == was.separate && r.b in m.disk.bindings
    ensures r.Moved? ==> forall b | b in m.disk.bindings :: !(b.iface == iface && b.app == was.app)
    ensures r.Moved? || r.OldEntryStays? ==>
              OthersStay(old(m.disk).bindings, m.disk.bindings, if r.Moved? then {iface, to} else {to}, was.app)
    ensures forall i | i != iface && i != to :: SettingsSame(old(m.disk), m.disk, i)
    ensures old(m.faults) <= m.faults && (m.faults == old(m.faults) ==> !r.OldEntryStays?)
  {
    ghost var r0, k0 := m.disk, m.kern;
    var bound := BindTo(m, was, to, uid, foreign);
    if !bound.Bound? { return NotMoved(bound); }
    ghost var r1, k1 := m.disk, m.kern;
    DropKeepsOthers(r0.bindings, r1, iface, to, was.app);
    var ok;
    ghost var torn;
    ok, torn := DropMoved(m, iface, was.app);
    KeptInTurn(m.nm, r0, r1, k0, k1, m.kern, to, iface);
    forall i | i != iface && i != to ensures SettingsSame(r0, m.disk, i) {
      SettingsThrough(r0, r1, m.disk, i);
    }
    r := if ok then Moved(bound.b) else OldEntryStays(bound.b);
  }

  /** The application is bound on the interface, and the other one can be used. */
  ghost predicate Movable(iface: string, app: string, to: string, r: Saved, links: map<string, Link>) {
    iface != to && to in links && links[to].bindable && exists b :: b in r.bindings && b.iface == iface && b.app == app
  }

  /** move_app. */
  method MoveApp(m: Host, iface: string, app: string, to: string, uid: nat, foreign: seq<Net>) returns (r: MoveResult)
    requires m.Valid() && to in m.nm.known && Proper(foreign)
    modifies m
    ensures m.Valid() && old(m.trace) <= m.trace
    ensures SignalledOnly(old(m.procs), uid, old(m.signalled), m.signalled)
    ensures KeptPlumbing(m.nm, old(m.disk), old(m.kern), m.kern, {to, iface})
    ensures r.SameInterface? || r.NotMoved? ==> m.disk.bindings == old(m.disk).bindings
    ensures r.Moved? || r.OldEntryStays? ==>
              var was := FindBinding(old(m.disk).bindings, iface, app);
              && was.Some? && r.b in m.disk.bindings && r.b.iface == to && r.b.app == app
              && r.b.separate == was.value.separate
              && OthersStay(old(m.disk).bindings, m.disk.bindings, if r.Moved? then {iface, to} else {to}, app)
    ensures r.Moved? ==> forall b | b in m.disk.bindings :: !(b.iface == iface && b.app == app)
    ensures forall i | i != iface && i != to :: SettingsSame(old(m.disk), m.disk, i)
    ensures old(m.faults) <= m.faults && (m.faults == old(m.faults) ==> !r.OldEntryStays?)
    ensures r.SameInterface? <==> iface == to
    ensures iface != to ==> (r == NotMoved(Refused(NoBindingFor)) <==>
               FindBinding(old(m.disk).bindings, iface, app) == None)
    ensures if Movable(iface, app, to, old(m.disk), old(m.links))
            then && StoppedFirst(m, old(m.procs), old(m.kern).namespaces, old(m.disk).bindings, iface, app, uid,
                                 old(m.signalled))
                 && if m.left != [] then r == NotMoved(Refused(StillRunning(m.left))) else !StillThere(r)
            else (r.NotMoved? || r.SameInterface?) && m.signalled == old(m.signalled) && m.kern == old(m.kern)
  {
    if to == iface { return SameInterface; }
    m.Now();
    FoundBinding(m.disk.bindings, iface, app);
    var found := FindBinding(m.disk.bindings, iface, app);
    if found == None {
      r := NotMoved(Refused(NoBindingFor));
    } else if to !in m.links || !m.links[to].bindable {
      r := NotMoved(Refused(if to !in m.links then NoInterface else NotBindable));
    } else {
      var stopped := StopApp(m, iface, app, uid);
      if stopped.still != [] {
        r := NotMoved(Refused(StillRunning(stopped.still)));
      } else {
        r := BindThenDrop(m, iface, found.value, to, uid, foreign);
      }
    }
  }

  // -------------------------------------------------------------- settings of a namespace

  datatype SetResult = NoNamespace | NotApplied | Set

  /** set_limit: both directions are shaped, then the limit is recorded; None and 0 in both remove it. */
  method SetLimit(m: Host, iface: string, limit: Limit) returns (r: SetResult)
    requires m.Valid() && CheckedLimit(limit)
    modifies m`disk, m`dead, m`trace, m`faults
    ensures m.Valid() && old(m.trace) <= m.trace
    ensures r.NoNamespace? <==> !(iface in old(m.disk).subnets && m.nm.hash(iface) in m.kern.namespaces)
    ensures m.disk == if r.Set? then WithLimit(old(m.disk), iface, Some(limit)) else old(m.disk)
    ensures r.Set? ==> LimitRecorded(old(m.disk), m.disk, iface, Some(limit))
                       && m.disk == old(m.disk).(limits := m.disk.limits)
                       && forall i | i != iface :: SettingsSame(old(m.disk), m.disk, i)
    ensures old(m.faults) <= m.faults && (m.faults == old(m.faults) ==> !r.NotApplied?)
  {
    m.Now();
    LimitIs(m.disk, iface, Some(limit));
    var st := m.Load();
    if iface !in st.subnets || m.nm.hash(iface) !in m.kern.namespaces { return NoNamespace; }
    var ok := m.Other();
    if ok {
      ok := m.Other();
    }
    if ok {
      ok := SaveLimit(m, st, iface, limit);
    }
    r := if ok then Set else NotApplied;
  }

  method SaveLimit(m: Host, st: State, iface: string, limit: Limit) returns (ok: bool)
    requires m.Valid() && st.Rec() == m.disk && iface in st.subnets && CheckedLimit(limit)
    modifies m`disk, m`dead, m`trace, m`faults, st
    ensures m.Valid() && old(m.trace) <= m.trace
    ensures m.disk == if ok then WithLimit(old(m.disk), iface, Some(limit)) else old(m.disk)
    ensures m.faults == old(m.faults) + if ok then 0 else 1
  {
    m.Now();
    LimitStaysStored(m.nm, m.disk, iface, Some(limit));
    SettingKeepsInv(m.nm, m.disk, WithLimit(m.disk, iface, Some(limit)), m.kern, m.lost);
    st.limits := WithLimit(st.Rec(), iface, Some(limit)).limits;
    assert st.Rec() == WithLimit(m.disk, iface, Some(limit));
    ok := m.Save(st);
  }

  lemma SettingKeepsInv(nm: Naming, r: Saved, r1: Saved, k: Kernel, lost: nat)
    requires Inv(nm, World(r, k, lost)) && Stored(nm, r1) && r1 == r.(dns := r1.dns, limits := r1.limits)
    requires r1.dns.Keys <= r.subnets.Keys && r1.limits.Keys <= r.subnets.Keys
    ensures Inv(nm, World(r1, k, lost))
  {
  }

  /** set_dns: the namespace's files and redirect are rewritten, then the choice is recorded. */
  method SetDns(m: Host, iface: string, dns: DnsChoice) returns (r: SetResult)
    requires m.Valid() && dns != KeepDns && (dns.UseDns? ==> StateFile.ValidServers(m.nm.lib, dns.servers))
    modifies m`disk, m`dead, m`trace, m`faults
    ensures m.Valid() && old(m.trace) <= m.trace
    ensures r.NoNamespace? <==> !(iface in old(m.disk).subnets && m.nm.hash(iface) in m.kern.namespaces)
    ensures m.disk == if r.Set? then WithDns(old(m.disk), iface, dns) else old(m.disk)
    ensures r.Set? ==> DnsRecorded(old(m.disk), m.disk, iface, dns) && m.disk == old(m.disk).(dns := m.disk.dns)
                       && forall i | i != iface :: SettingsSame(old(m.disk), m.disk, i)
    ensures dns == AutoDns && iface !in m.links ==> !r.Set?
    ensures old(m.faults) <= m.faults && (m.faults == old(m.faults) ==>
               (r.NotApplied? ==> dns == AutoDns && iface !in m.links))
  {
    DnsIs(m.disk, iface, dns);
    var st := m.Load();
    if iface !in st.subnets || m.nm.hash(iface) !in m.kern.namespaces { return NoNamespace; }
    var ok := m.Other();
    if ok && (dns == AutoDns ==> iface in m.links) {
      ok := SaveDns(m, st, iface, dns);
    } else {
      ok := false;
    }
    r := if ok then Set else NotApplied;
  }

  method SaveDns(m: Host, st: State, iface: string, dns: DnsChoice) returns (ok: bool)
    requires m.Valid() && st.Rec() == m.disk && iface in st.subnets
    requires dns.UseDns? ==> StateFile.ValidServers(m.nm.lib, dns.servers)
    modifies m`disk, m`dead, m`trace, m`faults, st
    ensures m.Valid() && old(m.trace) <= m.trace
    ensures m.disk == if ok then WithDns(old(m.disk), iface, dns) else old(m.disk)
    ensures m.faults == old(m.faults) + if ok then 0 else 1
  {
    m.Now();
    DnsStaysStored(m.nm, m.disk, iface, dns);
    SettingKeepsInv(m.nm, m.disk, WithDns(m.disk, iface, dns), m.kern, m.lost);
    st.dns := WithDns(st.Rec(), iface, dns).dns;
    assert st.Rec() == WithDns(m.disk, iface, dns);
    ok := m.Save(st);
  }
}
