/** Which processes belong to a binding, and stopping them (intermux/engine.py, stop_app and kill_app). */
module Stop {
  import opened Basics
  import opened Procs
  import opened Record
  import opened Machine
  import opened Idle

  function FindBinding(bs: seq<Binding>, iface: string, app: string): Option<Binding> {
    if bs == [] then None
    else if bs[0].iface == iface && bs[0].app == app then Some(bs[0])
    else FindBinding(bs[1..], iface, app)
  }

  lemma {:induction false} FoundBinding(bs: seq<Binding>, iface: string, app: string)
    ensures match FindBinding(bs, iface, app)
            case Some(b) => b in bs && b.iface == iface && b.app == app
            case None => forall b | b in bs :: !(b.iface == iface && b.app == app)
  {
    if bs != [] {
      FoundBinding(bs[1..], iface, app);
    }
  }

  predicate RunsApp(m: Host, p: Proc, app: string, uid: Option<nat>)
  {
    p.pid != m.me && Admits(uid, p) && Runs(p, app, m.comm(app))
  }

  /** _binding_pids: the processes in the namespace that run the application or descend from the launched
      one; a binding alone in its namespace without any such process takes everything in it. */
  ghost function PidsOf(m: Host, procs: seq<Proc>, spaces: set<Hash>, bs: seq<Binding>, b: Binding,
                        uid: Option<nat>): set<Pid>
  {
    var here := SpaceOf(procs, spaces, b.ns, uid);
    var byName := set p | p in procs && RunsApp(m, p, b.app, uid) && p.pid in here :: p.pid;
    var byTree := if HasPid(b) then Family(procs, uid, {b.pid.value}) * here else {};
    if byName + byTree == {} && !Shares(bs, b) then here else byName + byTree
  }

  /** A listed process with this pid, not this one, runs the application by name or path, under `uid` when given. */
  ghost predicate RunsIt(me: Pid, names: set<string>, procs: seq<Proc>, app: string, uid: Option<nat>, p: Pid) {
    p != me && exists q :: q in procs && q.pid == p && (uid == None || q.uid == uid.value)
                           && (q.comm in names || q.exe == Some(app))
  }

  lemma RunsItIff(m: Host, procs: seq<Proc>, app: string, uid: Option<nat>, p: Pid)
    ensures RunsIt(m.me, m.comm(app), procs, app, uid, p)
            <==> exists q :: q in procs && q.pid == p && RunsApp(m, q, app, uid)
  {
  }

  /** A process of the namespace that is the binding's own: it runs the application, or is in the tree below the
      recorded pid. */
  ghost predicate OwnPid(m: Host, procs: seq<Proc>, spaces: set<Hash>, b: Binding, uid: Option<nat>, p: Pid) {
    InSpaceOf(procs, spaces, b.ns, uid, p)
    && (RunsIt(m.me, m.comm(b.app), procs, b.app, uid, p)
        || (b.pid.Some? && b.pid.value != 0 && Reachable(procs, uid, {b.pid.value}, p)))
  }

  /** Whose processes belong to a binding: its own; without any, and alone in its namespace, all of that. */
  ghost predicate BelongsTo(m: Host, procs: seq<Proc>, spaces: set<Hash>, bs: seq<Binding>, b: Binding,
                            uid: Option<nat>, p: Pid)
  {
    || OwnPid(m, procs, spaces, b, uid, p)
    || (InSpaceOf(procs, spaces, b.ns, uid, p) && !Shared(bs, b.ns) && !exists x :: OwnPid(m, procs, spaces, b, uid, x))
  }

  lemma PidsIff(m: Host, procs: seq<Proc>, spaces: set<Hash>, bs: seq<Binding>, b: Binding, uid: Option<nat>)
    ensures forall p :: p in PidsOf(m, procs, spaces, bs, b, uid) <==> BelongsTo(m, procs, spaces, bs, b, uid, p)
  {
    var here := SpaceOf(procs, spaces, b.ns, uid);
    var byName := set p | p in procs && RunsApp(m, p, b.app, uid) && p.pid in here :: p.pid;
    var byTree := if HasPid(b) then Family(procs, uid, {b.pid.value}) * here else {};
    SpaceIff(procs, spaces, b.ns, uid);
    SharedIff(bs, b.ns);
    forall p ensures p in byName + byTree <==> OwnPid(m, procs, spaces, b, uid, p) {
      RunsItIff(m, procs, b.app, uid, p);
      if HasPid(b) {
        FamilyIsReachable(procs, uid, {b.pid.value}, p);
      }
    }
    assert byName + byTree == {} <==> !exists x :: OwnPid(m, procs, spaces, b, uid, x) by {
      if x :| x in byName + byTree { assert OwnPid(m, procs, spaces, b, uid, x); }
    }
  }

  /** All of them run in the binding's namespace, under `uid` when given; a lone binding of a namespace with
      such processes has at least one. */
  lemma PidsOfBounds(m: Host, procs: seq<Proc>, spaces: set<Hash>, bs: seq<Binding>, b: Binding, uid: Option<nat>)
    ensures var pids, here := PidsOf(m, procs, spaces, bs, b, uid), SpaceOf(procs, spaces, b.ns, uid);
            pids <= here && (!Shares(bs, b) ==> (pids == {} <==> here == {}))
    ensures uid.Some? ==> forall p | p in PidsOf(m, procs, spaces, bs, b, uid) :: Owned(procs, uid.value, p)
  {
  }

  method Listed(s: set<Pid>) returns (r: seq<Pid>)
    ensures NoDup(r) && Elems(r) == s
  {
    r := [];
    var rest := s;
    while rest != {}
      invariant NoDup(r) && Elems(r) !! rest && Elems(r) + rest == s
      decreases rest
    {
      var p :| p in rest;
      NoDupAppend(r, p);
      ElemsAppend(r, [p]);
      rest := rest - {p};
      r := r + [p];
    }
  }

  method TreeIn(procs: seq<Proc>, b: Binding, uid: Option<nat>, here: set<Pid>) returns (r: set<Pid>)
    ensures r == if HasPid(b) then Family(procs, uid, {b.pid.value}) * here else {}
  {
    if !HasPid(b) { return {}; }
    var tree := Descendants([b.pid.value], procs, uid);
    assert Elems([b.pid.value]) == {b.pid.value};
    r := set p | p in tree && p in here;
    assert r == Elems(tree) * here;
  }

  method NamedIn(m: Host, app: string, uid: Option<nat>, here: set<Pid>) returns (r: set<Pid>)
    ensures r == set p | p in m.procs && RunsApp(m, p, app, uid) && p.pid in here :: p.pid
  {
    var running := FindAppProcs(app, m.comm(app), uid, m.me, m.procs);
    r := set p | p in running && p.pid in here :: p.pid;
  }

  method BindingPids(m: Host, bs: seq<Binding>, b: Binding, uid: Option<nat>) returns (pids: seq<Pid>)
    ensures NoDup(pids) && Elems(pids) == PidsOf(m, m.procs, m.kern.namespaces, bs, b, uid)
    ensures forall p :: p in pids <==> BelongsTo(m, m.procs, m.kern.namespaces, bs, b, uid, p)
  {
    PidsIff(m, m.procs, m.kern.namespaces, bs, b, uid);
    var here := SpaceOf(m.procs, m.kern.namespaces, b.ns, uid);
    if here == {} {
      assert PidsOf(m, m.procs, m.kern.namespaces, bs, b, uid) == {};
      return [];
    }
    var byName := NamedIn(m, b.app, uid, here);
    var byTree := TreeIn(m.procs, b, uid, here);
    pids := Listed(if byName + byTree == {} && !Shares(bs, b) then here else byName + byTree);
    assert forall p :: p in pids <==> p in Elems(pids);
  }

  /** Every pid signalled since then belongs to `uid`. */
  ghost predicate SignalledOnly(procs: seq<Proc>, uid: nat, before: seq<Pid>, after: seq<Pid>) {
    before <= after && forall p | p in after[|before|..] :: Owned(procs, uid, p)
  }

  /** In a tree of `uid` below one of these. */
  ghost predicate Below(procs: seq<Proc>, uid: nat, roots: iset<Pid>, p: Pid) {
    exists x :: x in roots && Reachable(procs, Some(uid), {x}, p)
  }

  /** Since then exactly what is below these was signalled, but never 0, 1 or this process. */
  ghost predicate Told(me: Pid, procs: seq<Proc>, uid: nat, roots: iset<Pid>, before: seq<Pid>, after: seq<Pid>) {
    before <= after && forall p :: p in after[|before|..] <==> Below(procs, uid, roots, p) && p > 1 && p != me
  }

  /** Left at the end of the last wait is exactly what is below these and still alive. */
  ghost predicate LeftOf(m: Host, procs: seq<Proc>, uid: nat, roots: iset<Pid>)
    reads m
  {
    forall p :: p in m.left <==> Below(procs, uid, roots, p) && p > 1 && p != m.me && m.Alive(p)
  }

  /** The process was signalled more than once. */
  ghost predicate Twice(sent: seq<Pid>, p: Pid) { exists i, j :: 0 <= i < j < |sent| && sent[i] == p && sent[j] == p }

  /** With force everyone left was signalled again, without it nobody was. */
  ghost predicate Forced(m: Host, force: bool, before: seq<Pid>)
    reads m
  {
    && before <= m.signalled
    && if force then forall p | p in m.left :: Twice(m.signalled[|before|..], p)
       else forall p :: !Twice(m.signalled[|before|..], p)
  }

  lemma SentTwice(sent: seq<Pid>, killed: seq<Pid>)
    requires NoDup(sent)
    ensures forall p | p in sent && p in killed :: Twice(sent + killed, p)
    ensures killed == [] ==> forall p :: !Twice(sent + killed, p)
  {
    forall p | p in sent && p in killed ensures Twice(sent + killed, p) {
      var i :| 0 <= i < |sent| && sent[i] == p;
      var j :| 0 <= j < |killed| && killed[j] == p;
      assert (sent + killed)[i] == p && (sent + killed)[|sent| + j] == p;
    }
    assert sent + [] == sent;
  }

  lemma FamilyIsBelow(procs: seq<Proc>, uid: nat, pids: seq<Pid>)
    ensures forall p :: p in Family(procs, Some(uid), Elems(pids)) <==> Below(procs, uid, (iset q | q in pids), p)
  {
    forall p ensures p in Family(procs, Some(uid), Elems(pids)) <==> Below(procs, uid, (iset q | q in pids), p) {
      FamilyIsReachable(procs, Some(uid), Elems(pids), p);
      ReachedFromOne(procs, Some(uid), Elems(pids), p);
    }
  }

  lemma NothingBelow(procs: seq<Proc>, uid: nat, roots: iset<Pid>)
    requires roots == iset{}
    ensures forall p :: !Below(procs, uid, roots, p)
  {
  }

  /** Terminate processes of `uid` with everything of `uid` below them. */
  method TerminateOwned(m: Host, pids: seq<Pid>, uid: nat, force: bool) returns (targets: seq<Pid>, survivors: seq<Pid>)
    requires forall p | p in pids :: Owned(m.procs, uid, p)
    modifies m`procs, m`signalled, m`left
    ensures NoDup(targets) && Elems(targets) == Family(old(m.procs), Some(uid), Elems(pids))
    ensures forall p :: p in targets <==> Below(old(m.procs), uid, (iset q | q in pids), p)
    ensures survivors == m.left && forall p | p in m.left :: p in targets && m.Alive(p)
    ensures !force ==> LeftOf(m, old(m.procs), uid, iset q | q in pids)
    ensures Forced(m, force, old(m.signalled))
    ensures SignalledOnly(old(m.procs), uid, old(m.signalled), m.signalled)
    ensures Told(m.me, old(m.procs), uid, (iset q | q in pids), old(m.signalled), m.signalled)
  {
    ghost var before, procs := m.signalled, m.procs;
    FamilyOwned(m.procs, uid, Elems(pids));
    FamilyIsBelow(m.procs, uid, pids);
    targets := Descendants(pids, m.procs, Some(uid));
    assert forall p :: p in targets <==> p in Elems(targets);
    ghost var killed;
    survivors, killed := m.Terminate(targets, force);
    assert m.signalled[|before|..] == Targets(targets, m.me) + killed;
    SentTwice(Targets(targets, m.me), killed);
  }

  datatype StopResult = NoBinding | Stopped(stopped: seq<Pid>, still: seq<Pid>)

  /** What was stopped is below these; `still` is what of it is left. */
  ghost predicate Reports(m: Host, procs: seq<Proc>, uid: nat, roots: iset<Pid>, r: StopResult)
    reads m
  {
    && r.Stopped? && r.still == m.left && NoDup(r.stopped)
    && (forall p | p in m.left :: Below(procs, uid, roots, p) && m.Alive(p))
    && forall p :: p in r.stopped <==> Below(procs, uid, roots, p) && p !in m.left
  }

  /** The processes of a binding under `uid`. */
  ghost function OwnPids(m: Host, procs: seq<Proc>, spaces: set<Hash>, bs: seq<Binding>, b: Binding,
                         uid: nat): iset<Pid>
  {
    iset p | BelongsTo(m, procs, spaces, bs, b, Some(uid), p)
  }

  /** stop_app: the binding itself is kept. */
  method StopApp(m: Host, iface: string, app: string, uid: nat) returns (r: StopResult)
    requires m.Valid()
    modifies m`procs, m`signalled, m`left
    ensures m.Valid()
    ensures r.NoBinding? <==> FindBinding(m.disk.bindings, iface, app) == None
    ensures r.NoBinding? <==> forall b | b in m.disk.bindings :: !(b.iface == iface && b.app == app)
    ensures r.NoBinding? ==> m.procs == old(m.procs) && m.signalled == old(m.signalled) && m.left == old(m.left)
    ensures SignalledOnly(old(m.procs), uid, old(m.signalled), m.signalled)
    ensures r.Stopped? ==>
              var b := FindBinding(m.disk.bindings, iface, app).value;
              var own := OwnPids(m, old(m.procs), m.kern.namespaces, m.disk.bindings, b, uid);
              && b in m.disk.bindings && b.iface == iface && b.app == app
              && Told(m.me, old(m.procs), uid, own, old(m.signalled), m.signalled)
              && LeftOf(m, old(m.procs), uid, own) && Reports(m, old(m.procs), uid, own, r)
              && Forced(m, false, old(m.signalled))
  {
    FoundBinding(m.disk.bindings, iface, app);
    var st := m.Load();
    var found := FindBinding(st.bindings, iface, app);
    if found == None { return NoBinding; }
    ghost var own := OwnPids(m, m.procs, m.kern.namespaces, m.disk.bindings, found.value, uid);
    var pids := BindingPids(m, st.bindings, found.value, Some(uid));
    PidsOfBounds(m, m.procs, m.kern.namespaces, st.bindings, found.value, Some(uid));
    assert forall p | p in pids :: p in Elems(pids);
    assert own == iset p | p in pids;
    r := StopAll(m, pids, uid, false);
  }

  method StopAll(m: Host, pids: seq<Pid>, uid: nat, force: bool) returns (r: StopResult)
    requires m.Valid() && forall p | p in pids :: Owned(m.procs, uid, p)
    modifies m`procs, m`signalled, m`left
    ensures m.Valid() && r.Stopped? && SignalledOnly(old(m.procs), uid, old(m.signalled), m.signalled)
    ensures Told(m.me, old(m.procs), uid, (iset p | p in pids), old(m.signalled), m.signalled)
    ensures !force ==> LeftOf(m, old(m.procs), uid, iset p | p in pids)
    ensures Reports(m, old(m.procs), uid, (iset p | p in pids), r) && Forced(m, force, old(m.signalled))
  {
    ghost var procs := m.procs;
    if pids == [] {
      NothingBelow(procs, uid, iset p | p in pids);
      m.left := [];
      return Stopped([], []);
    }
    var targets, survivors := TerminateOwned(m, pids, uid, force);
    r := Stopped(Filter(targets, (p: Pid) => p !in survivors), survivors);
    ReportsAre(m, procs, uid, (iset p | p in pids), targets, (p: Pid) => p !in survivors);
  }

  lemma ReportsAre(m: Host, procs: seq<Proc>, uid: nat, roots: iset<Pid>, targets: seq<Pid>, exited: Pid -> bool)
    requires NoDup(targets) && forall p :: p in targets <==> Below(procs, uid, roots, p)
    requires forall p | p in m.left :: p in targets && m.Alive(p)
    requires forall p :: exited(p) <==> p !in m.left
    ensures Reports(m, procs, uid, roots, Stopped(Filter(targets, exited), m.left))
  {
    FilterNoDup(targets, exited);
  }

  /** kill_app: every process of `uid` that runs the application, anywhere, with everything of `uid` below it. */
  method KillApp(m: Host, app: string, uid: nat, force: bool) returns (r: StopResult)
    requires m.Valid()
    modifies m`procs, m`signalled, m`left
    ensures m.Valid() && SignalledOnly(old(m.procs), uid, old(m.signalled), m.signalled)
    ensures var own := iset p | RunsIt(m.me, m.comm(app), old(m.procs), app, Some(uid), p);
            && Told(m.me, old(m.procs), uid, own, old(m.signalled), m.signalled)
            && Reports(m, old(m.procs), uid, own, r) && Forced(m, force, old(m.signalled))
            && (!force ==> LeftOf(m, old(m.procs), uid, own))
  {
    ghost var own := iset p | RunsIt(m.me, m.comm(app), m.procs, app, Some(uid), p);
    var found := FindAppProcs(app, m.comm(app), Some(uid), m.me, m.procs);
    var pids := PidsOfProcs(found);
    RunsItAll(m, m.procs, app, uid, found, pids);
    assert own == iset p | p in pids;
    r := StopAll(m, pids, uid, force);
  }

  lemma RunsItAll(m: Host, procs: seq<Proc>, app: string, uid: nat, found: seq<Proc>, pids: seq<Pid>)
    requires forall q :: q in found <==>
               q in procs && q.pid != m.me && q.uid == uid && (q.comm in m.comm(app) || q.exe == Some(app))
    requires Elems(pids) == set q | q in found :: q.pid
    ensures forall p :: p in pids <==> RunsIt(m.me, m.comm(app), procs, app, Some(uid), p)
    ensures forall p | p in pids :: Owned(procs, uid, p)
  {
  }

  method PidsOfProcs(ps: seq<Proc>) returns (pids: seq<Pid>)
    ensures |pids| == |ps| && Elems(pids) == set p | p in ps :: p.pid
  {
    pids := seq(|ps|, i requires 0 <= i < |ps| => ps[i].pid);
    forall p | p in ps ensures p.pid in pids {
      var k :| 0 <= k < |ps| && ps[k] == p;
      assert pids[k] == p.pid;
    }
  }
}
