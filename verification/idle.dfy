/** Which bindings still run, and the pass that drops the others and tears idle interfaces down
    (intermux/engine.py, teardown_idle). */
module Idle {
  import opened Basics
  import opened Procs
  import opened Adopt
  import opened Record
  import opened Machine

  /** What one pass sees: the processes, the named namespaces, and the cgroups it cannot read. */
  datatype Sight = Sight(procs: seq<Proc>, spaces: set<Hash>, groups: map<string, set<Pid>>, unreadable: set<string>)

  function InSpace(s: Sight, h: Hash): set<Pid> { SpaceOf(s.procs, s.spaces, h, None) }

  predicate BusySpace(s: Sight, h: Hash) { InSpace(s, h) != {} }

  function CountNs(bs: seq<Binding>, h: Hash): nat {
    if bs == [] then 0 else (if bs[0].ns == h then 1 else 0) + CountNs(bs[1..], h)
  }

  /** Another binding of the list shares b's namespace (b itself is in the list). */
  predicate Shares(bs: seq<Binding>, b: Binding) { CountNs(bs, b.ns) > 1 }

  predicate HasPid(b: Binding) { b.pid.Some? && b.pid.value != 0 }

  /** _binding_live: the namespace is busy, and where several bindings share it, the processes launched for this
      one have a descendant in it (without a recorded pid there is nothing to tell them by). */
  ghost predicate Live(s: Sight, bs: seq<Binding>, b: Binding) {
    BusySpace(s, b.ns)
    && (HasPid(b) ==> Family(s.procs, None, {b.pid.value}) * InSpace(s, b.ns) != {} || !Shares(bs, b))
  }

  /** Two bindings of the list are in this namespace. */
  ghost predicate Shared(bs: seq<Binding>, h: Hash) {
    exists i, j :: 0 <= i < j < |bs| && bs[i].ns == h && bs[j].ns == h
  }

  /** A process in the namespace, in the tree below the recorded pid of the binding; any process when no pid was
      recorded. */
  ghost predicate Occupies(s: Sight, b: Binding, p: Pid) {
    InSpaceOf(s.procs, s.spaces, b.ns, None, p)
    && (b.pid.Some? && b.pid.value != 0 ==> Reachable(s.procs, None, {b.pid.value}, p))
  }

  lemma {:induction false} SharedIff(bs: seq<Binding>, h: Hash)
    ensures CountNs(bs, h) > 1 <==> Shared(bs, h)
  {
    if bs != [] {
      var rest := bs[1..];
      SharedIff(rest, h);
      CountZero(rest, h);
      if Shared(rest, h) {
        var i, j :| 0 <= i < j < |rest| && rest[i].ns == h && rest[j].ns == h;
        assert bs[i + 1].ns == h && bs[j + 1].ns == h;
      }
      if Shared(bs, h) {
        var i, j :| 0 <= i < j < |bs| && bs[i].ns == h && bs[j].ns == h;
        assert rest[j - 1].ns == h && (i > 0 ==> rest[i - 1].ns == h);
      }
      if CountNs(rest, h) > 0 && bs[0].ns == h {
        var b :| b in rest && b.ns == h;
        var j :| 0 <= j < |rest| && rest[j] == b;
        assert bs[0].ns == h && bs[j + 1].ns == h;
      }
    }
  }

  /** When a binding is live: its namespace holds a process, and if another binding is in it, one that belongs to
      this binding. */
  lemma LiveIff(s: Sight, bs: seq<Binding>, b: Binding)
    ensures Live(s, bs, b) <==>
              (exists p :: InSpaceOf(s.procs, s.spaces, b.ns, None, p))
              && (Shared(bs, b.ns) ==> exists p :: Occupies(s, b, p))
  {
    SharedIff(bs, b.ns);
    SpaceIff(s.procs, s.spaces, b.ns, None);
    OccupiesIff(s, b);
  }

  lemma OccupiesIff(s: Sight, b: Binding)
    ensures (exists p :: Occupies(s, b, p)) <==>
              BusySpace(s, b.ns) && (HasPid(b) ==> Family(s.procs, None, {b.pid.value}) * InSpace(s, b.ns) != {})
  {
    SpaceIff(s.procs, s.spaces, b.ns, None);
    if p :| Occupies(s, b, p) {
      assert p in InSpace(s, b.ns);
      if HasPid(b) {
        FamilyIsReachable(s.procs, None, {b.pid.value}, p);
        assert p in Family(s.procs, None, {b.pid.value}) * InSpace(s, b.ns);
      }
    }
    if HasPid(b) {
      if p :| p in Family(s.procs, None, {b.pid.value}) * InSpace(s, b.ns) {
        FamilyIsReachable(s.procs, None, {b.pid.value}, p);
        assert Occupies(s, b, p);
      }
    } else if p :| p in InSpace(s, b.ns) {
      assert Occupies(s, b, p);
    }
  }

  /** The drop loop: bindings are judged in order, each against the ones not dropped yet. */
  ghost function Survivors(s: Sight, kept: seq<Binding>, todo: seq<Binding>): seq<Binding>
    decreases |todo|
  {
    if todo == [] then kept
    else if Live(s, kept + todo, todo[0]) then Survivors(s, kept + [todo[0]], todo[1..])
    else Survivors(s, kept, todo[1..])
  }

  ghost predicate AllLive(s: Sight, bs: seq<Binding>, kept: seq<Binding>) {
    forall b | b in kept :: Live(s, bs, b)
  }

  lemma {:induction false} CountSplit(a: seq<Binding>, b: seq<Binding>, h: Hash)
    ensures CountNs(a + b, h) == CountNs(a, h) + CountNs(b, h)
  {
    if a == [] {
      assert a + b == b;
    } else {
      assert (a + b)[1..] == a[1..] + b;
      CountSplit(a[1..], b, h);
    }
  }

  lemma {:induction false} CountZero(bs: seq<Binding>, h: Hash)
    ensures CountNs(bs, h) > 0 <==> exists b :: b in bs && b.ns == h
  {
    if bs != [] {
      CountZero(bs[1..], h);
      assert bs[0] in bs && forall b :: b in bs <==> b == bs[0] || b in bs[1..];
    }
  }

  /** Dropping one binding takes no liveness from the others: siblings only get fewer. */
  lemma LiveWithout(s: Sight, kept: seq<Binding>, x: Binding, rest: seq<Binding>)
    requires AllLive(s, kept + [x] + rest, kept)
    ensures AllLive(s, kept + rest, kept)
  {
    forall b | b in kept ensures Live(s, kept + rest, b) {
      CountSplit(kept + [x], rest, b.ns);
      CountSplit(kept, [x], b.ns);
      CountSplit(kept, rest, b.ns);
    }
  }

  /** Every survivor is live among the survivors, and is one of the bindings. */
  lemma {:induction false} SurvivorsLive(s: Sight, kept: seq<Binding>, todo: seq<Binding>)
    requires AllLive(s, kept + todo, kept)
    ensures var out := Survivors(s, kept, todo);
            AllLive(s, out, out) && kept <= out && forall b | b in out :: b in kept || b in todo
    decreases |todo|
  {
    if todo == [] {
      assert kept + todo == kept;
    } else {
      var x, rest := todo[0], todo[1..];
      assert kept + todo == kept + [x] + rest;
      if Live(s, kept + todo, x) {
        SurvivorsLive(s, kept + [x], rest);
      } else {
        LiveWithout(s, kept, x, rest);
        SurvivorsLive(s, kept, rest);
      }
    }
  }

  /** Whatever the list order and the recorded pids, a namespace with processes that had a binding keeps one,
      and a namespace without processes keeps none. */
  lemma {:induction false} BusyKeepsBinding(s: Sight, kept: seq<Binding>, todo: seq<Binding>, h: Hash)
    requires AllLive(s, kept + todo, kept)
    ensures var out := Survivors(s, kept, todo);
            BusySpace(s, h) ==> (CountNs(out, h) > 0 <==> CountNs(kept + todo, h) > 0)
    ensures var out := Survivors(s, kept, todo); !BusySpace(s, h) ==> CountNs(out, h) == 0
    decreases |todo|
  {
    if todo == [] {
      assert kept + todo == kept;
      CountZero(kept, h);
    } else {
      var x, rest := todo[0], todo[1..];
      assert kept + todo == kept + [x] + rest;
      if Live(s, kept + todo, x) {
        BusyKeepsBinding(s, kept + [x], rest, h);
      } else {
        LiveWithout(s, kept, x, rest);
        CountSplit(kept + [x], rest, h);
        CountSplit(kept, [x], h);
        CountSplit(kept, rest, h);
        BusyKeepsBinding(s, kept, rest, h);
      }
    }
  }

  lemma {:induction false} AllLiveStay(s: Sight, kept: seq<Binding>, todo: seq<Binding>)
    requires AllLive(s, kept + todo, kept + todo)
    ensures Survivors(s, kept, todo) == kept + todo
    decreases |todo|
  {
    if todo == [] {
      assert kept + todo == kept;
    } else {
      assert todo[0] in kept + todo;
      assert kept + todo == (kept + [todo[0]]) + todo[1..];
      AllLiveStay(s, kept + [todo[0]], todo[1..]);
    }
  }

  /** Which bindings of a list a pass keeps, without the loop: none of an empty namespace; of the others those with
      a process of their own or, when no binding of the namespace has one, the last of it. */
  ghost predicate Stays(s: Sight, bs: seq<Binding>, k: nat)
    requires k < |bs|
  {
    (exists p :: InSpaceOf(s.procs, s.spaces, bs[k].ns, None, p))
    && ((exists p :: Occupies(s, bs[k], p)) || LastOfIdle(s, bs, k))
  }

  /** No binding of its namespace has a process of its own, and none comes after it. */
  ghost predicate LastOfIdle(s: Sight, bs: seq<Binding>, k: nat)
    requires k < |bs|
  {
    forall j | 0 <= j < |bs| && bs[j].ns == bs[k].ns :: j <= k && !(exists p :: Occupies(s, bs[j], p))
  }

  ghost predicate NoneOf(bs: seq<Binding>, h: Hash) { forall b | b in bs :: b.ns != h }

  /** Liveness of the next binding, in terms of what was kept and what is still to be judged. */
  lemma NextLive(s: Sight, kept: seq<Binding>, x: Binding, rest: seq<Binding>)
    ensures Live(s, kept + ([x] + rest), x) <==>
              (exists p :: InSpaceOf(s.procs, s.spaces, x.ns, None, p))
              && ((exists p :: Occupies(s, x, p)) || (NoneOf(kept, x.ns) && NoneOf(rest, x.ns)))
  {
    CountSplit(kept, [x] + rest, x.ns);
    assert ([x] + rest)[1..] == rest;
    CountZero(kept, x.ns);
    CountZero(rest, x.ns);
    SharedIff(kept + ([x] + rest), x.ns);
    LiveIff(s, kept + ([x] + rest), x);
  }

  lemma {:induction false} SurvivesIff(s: Sight, kept: seq<Binding>, todo: seq<Binding>, k: nat)
    requires NoDup(kept + todo) && AllLive(s, kept + todo, kept) && k < |todo|
    ensures todo[k] in Survivors(s, kept, todo) <==>
              Stays(s, todo, k) && (NoneOf(kept, todo[k].ns) || exists p :: Occupies(s, todo[k], p))
    decreases |todo|
  {
    var x, rest := todo[0], todo[1..];
    assert todo == [x] + rest && kept + todo == kept + [x] + rest && kept + todo == (kept + [x]) + rest;
    NextLive(s, kept, x, rest);
    var live := Live(s, kept + todo, x);
    var kept' := if live then kept + [x] else kept;
    if !live {
      LiveWithout(s, kept, x, rest);
    }
    KeptApart(kept, x, rest);
    SurvivorsLive(s, kept', rest);
    if k > 0 {
      SurvivesIff(s, kept', rest, k - 1);
      assert rest[k - 1] == todo[k];
      LaterStays(s, todo, k);
    } else {
      FirstStays(s, x, rest);
      assert todo[k] == x && LastOfIdle(s, todo, 0) == LastOfIdle(s, [x] + rest, 0);
      var out := Survivors(s, kept', rest);
      assert Survivors(s, kept, todo) == out;
      if live {
        assert out[|kept|] == kept'[|kept|] == x;
      } else {
        assert x !in out;
      }
    }
  }

  lemma KeptApart(kept: seq<Binding>, x: Binding, rest: seq<Binding>)
    requires NoDup(kept + [x] + rest)
    ensures NoDup(kept + rest) && x !in kept && x !in rest
  {
    var all, fewer := kept + [x] + rest, kept + rest;
    assert forall k | 0 <= k < |fewer| :: fewer[k] == all[if k < |kept| then k else k + 1];
    assert forall k | 0 <= k < |kept| :: kept[k] == all[k];
    assert forall k | 0 <= k < |rest| :: rest[k] == all[|kept| + 1 + k];
    assert all[|kept|] == x;
  }

  lemma FirstStays(s: Sight, x: Binding, rest: seq<Binding>)
    ensures LastOfIdle(s, [x] + rest, 0) <==> NoneOf(rest, x.ns) && !(exists p :: Occupies(s, x, p))
  {
    var all := [x] + rest;
    assert all[0] == x && forall j | 0 < j < |all| :: all[j] == rest[j - 1];
    if LastOfIdle(s, all, 0) {
      forall b | b in rest ensures b.ns != x.ns {
        var j :| 0 <= j < |rest| && rest[j] == b;
        assert all[j + 1] == b;
      }
    }
    if NoneOf(rest, x.ns) {
      forall j | 0 < j < |all| ensures all[j].ns != x.ns {
        assert rest[j - 1] in rest;
      }
    }
  }

  lemma LaterStays(s: Sight, todo: seq<Binding>, k: nat)
    requires 0 < k < |todo|
    ensures var x, b := todo[0], todo[k];
            LastOfIdle(s, todo, k) <==>
              LastOfIdle(s, todo[1..], k - 1) && (x.ns == b.ns ==> !(exists p :: Occupies(s, x, p)))
  {
  }

  /** The whole drop loop: exactly the bindings that stay, in their order. */
  lemma SurvivorsAre(s: Sight, bs: seq<Binding>)
    requires NoDup(bs)
    ensures forall k | 0 <= k < |bs| :: bs[k] in Survivors(s, [], bs) <==> Stays(s, bs, k)
    ensures Within(Survivors(s, [], bs), bs)
  {
    assert [] + bs == bs;
    forall k | 0 <= k < |bs| ensures bs[k] in Survivors(s, [], bs) <==> Stays(s, bs, k) {
      SurvivesIff(s, [], bs, k);
    }
    SurvivorsInOrder(s, [], bs);
  }

  lemma {:induction false} SurvivorsInOrder(s: Sight, kept: seq<Binding>, todo: seq<Binding>)
    requires NoDup(kept + todo) && AllLive(s, kept + todo, kept)
    ensures var out := Survivors(s, kept, todo); kept <= out && Within(out[|kept|..], todo)
    decreases |todo|
  {
    if todo != [] {
      var x, rest := todo[0], todo[1..];
      assert kept + todo == kept + [x] + rest && kept + todo == (kept + [x]) + rest;
      KeptApart(kept, x, rest);
      if Live(s, kept + todo, x) {
        SurvivorsInOrder(s, kept + [x], rest);
        var out := Survivors(s, kept + [x], rest);
        assert out[|kept|] == x && out[|kept|..][1..] == out[|kept| + 1..];
      } else {
        LiveWithout(s, kept, x, rest);
        SurvivorsInOrder(s, kept, rest);
        var out := Survivors(s, kept, rest);
        SurvivorsLive(s, kept, rest);
        WithinMembers(out[|kept|..], rest);
      }
    }
  }

  // -------------------------------------------------------------- the record after a pass

  /** The group could be read and is empty (or gone). */
  predicate EmptyGroup(s: Sight, group: string) {
    group !in s.unreadable && (group in s.groups ==> s.groups[group] == {})
  }

  function KeptAdoptions(s: Sight, xs: seq<Adoption>): seq<Adoption> {
    Filter(xs, (a: Adoption) => !EmptyGroup(s, a.group))
  }

  predicate HasBinding(bs: seq<Binding>, iface: string) { exists b :: b in bs && b.iface == iface }

  /** The interfaces of `from` that neither these bindings nor any process use. */
  ghost function IdleOf(nm: Naming, bs: seq<Binding>, s: Sight, from: set<string>): set<string> {
    set i | i in from && !HasBinding(bs, i) && !BusySpace(s, nm.hash(i))
  }

  /** The record once dead bindings and empty adoptions are dropped. */
  ghost function Judged(r: Saved, s: Sight): Saved {
    r.(bindings := Survivors(s, [], r.bindings), adoptions := KeptAdoptions(s, r.adoptions))
  }

  /** Interfaces a pass tears down: recorded, without a surviving binding and without a process. */
  ghost function Torn(nm: Naming, r: Saved, s: Sight): set<string> {
    IdleOf(nm, Survivors(s, [], r.bindings), s, r.subnets.Keys)
  }

  ghost function AfterPass(nm: Naming, r: Saved, s: Sight): Saved { Without(Judged(r, s), Torn(nm, r, s)) }

  /** A namespace name that is gone or empty in `s` may be gone in `s2`; everything else is the same. */
  ghost predicate SameBusy(s: Sight, s2: Sight) {
    s2.procs == s.procs && s2.unreadable == s.unreadable && s2.spaces <= s.spaces
    && (forall h | BusySpace(s, h) :: h in s2.spaces)
    && (forall g | !EmptyGroup(s, g) :: (g in s2.groups <==> g in s.groups) && (g in s.groups ==>
        s2.groups[g] == s.groups[g]))
  }

  lemma BusyStays(s: Sight, s2: Sight, h: Hash)
    requires SameBusy(s, s2) && BusySpace(s, h)
    ensures InSpace(s2, h) == InSpace(s, h) && BusySpace(s2, h)
  {
  }

  lemma SecondPassBindings(s: Sight, s2: Sight, bs: seq<Binding>)
    requires SameBusy(s, s2)
    ensures var out := Survivors(s, [], bs); Survivors(s2, [], out) == out
  {
    var out := Survivors(s, [], bs);
    assert [] + bs == bs && [] + out == out;
    SurvivorsLive(s, [], bs);
    forall b | b in out ensures Live(s2, out, b) {
      BusyStays(s, s2, b.ns);
    }
    AllLiveStay(s2, [], out);
  }

  lemma SecondPassAdoptions(s: Sight, s2: Sight, xs: seq<Adoption>)
    requires SameBusy(s, s2)
    ensures KeptAdoptions(s2, KeptAdoptions(s, xs)) == KeptAdoptions(s, xs)
  {
    FilterAll(KeptAdoptions(s, xs), (a: Adoption) => !EmptyGroup(s2, a.group));
  }

  /** A second pass over the same processes and groups drops no binding, tears no interface down and
      releases no adoption. */
  lemma SecondPassIsQuiet(nm: Naming, r: Saved, s: Sight, s2: Sight)
    requires SameBusy(s, s2)
    ensures var r1 := AfterPass(nm, r, s);
            Torn(nm, r1, s2) == {} && AfterPass(nm, r1, s2) == r1
  {
    var r1 := AfterPass(nm, r, s);
    SecondPassBindings(s, s2, r.bindings);
    SecondPassAdoptions(s, s2, r.adoptions);
    forall i | i in r1.subnets ensures HasBinding(r1.bindings, i) || BusySpace(s2, nm.hash(i)) {
      if !HasBinding(r1.bindings, i) {
        BusyStays(s, s2, nm.hash(i));
      }
    }
    var none := Torn(nm, r1, s2);
    assert none == {};
    assert r1.subnets - {} == r1.subnets && r1.dns - {} == r1.dns && r1.limits - {} == r1.limits;
  }

  /** Survivors of an interface without processes: none. */
  lemma IdleSpaceKeepsNone(nm: Naming, r: Saved, s: Sight, i: string)
    requires Good(nm, r) && !BusySpace(s, nm.hash(i))
    ensures !HasBinding(Survivors(s, [], r.bindings), i)
  {
    var out := Survivors(s, [], r.bindings);
    assert [] + r.bindings == r.bindings;
    BusyKeepsBinding(s, [], r.bindings, nm.hash(i));
    SurvivorsLive(s, [], r.bindings);
    CountZero(out, nm.hash(i));
    forall b | b in out ensures b.iface != i {
      assert b in r.bindings && Derived(nm, r, b);
    }
  }

  /** What a pass leaves in the record, in terms of processes and groups alone. */
  ghost predicate PassRecord(nm: Naming, r0: Saved, r1: Saved, s: Sight) {
    && (forall k | 0 <= k < |r0.bindings| :: r0.bindings[k] in r1.bindings <==> Stays(s, r0.bindings, k))
    && Within(r1.bindings, r0.bindings)
    && (forall a | a in r0.adoptions :: a in r1.adoptions <==>
          a.group in s.unreadable || (a.group in s.groups && s.groups[a.group] != {}))
    && Within(r1.adoptions, r0.adoptions)
    && forall i :: if i in r0.subnets && exists p :: InSpaceOf(s.procs, s.spaces, nm.hash(i), None, p)
                   then SettingsSame(r0, r1, i) else SettingsGone(r1, i)
  }

  lemma PassSettings(nm: Naming, r: Saved, s: Sight, i: string)
    requires Good(nm, r)
    ensures if i in r.subnets && exists p :: InSpaceOf(s.procs, s.spaces, nm.hash(i), None, p)
            then SettingsSame(r, AfterPass(nm, r, s), i) else SettingsGone(AfterPass(nm, r, s), i)
  {
    if i in r.subnets {
      SpaceIff(s.procs, s.spaces, nm.hash(i), None);
      if !BusySpace(s, nm.hash(i)) {
        IdleSpaceKeepsNone(nm, r, s, i);
      }
    }
  }

  lemma PassRecordIs(nm: Naming, r: Saved, s: Sight)
    requires Good(nm, r)
    ensures PassRecord(nm, r, AfterPass(nm, r, s), s) && RunningKept(r, AfterPass(nm, r, s), s)
  {
    SurvivorsAre(s, r.bindings);
    FilterWithin(r.adoptions, (a: Adoption) => !EmptyGroup(s, a.group));
    forall i ensures if i in r.subnets && exists p :: InSpaceOf(s.procs, s.spaces, nm.hash(i), None, p)
                     then SettingsSame(r, AfterPass(nm, r, s), i) else SettingsGone(AfterPass(nm, r, s), i)
    {
      PassSettings(nm, r, s, i);
    }
    RunningAllStay(nm, r, AfterPass(nm, r, s), s);
  }

  /** Every binding whose recorded pid has a process of its tree in the namespace is still recorded. */
  ghost predicate RunningKept(r0: Saved, r1: Saved, s: Sight) {
    forall b, q {:trigger b in r0.bindings, q in s.procs}
      | b in r0.bindings && q in s.procs && b.ns in s.spaces
        && q.netns == Some(b.ns) && b.pid.Some? && Reachable(s.procs, None, {b.pid.value}, q.pid) ::
      b in r1.bindings
  }

  /** A binding with a process of its own tree in its namespace stays. */
  lemma RunningStays(nm: Naming, r: Saved, r1: Saved, s: Sight, b: Binding, q: Proc)
    requires PassRecord(nm, r, r1, s) && b in r.bindings && b.pid.Some? && q in s.procs
    requires b.ns in s.spaces && q.netns == Some(b.ns) && Reachable(s.procs, None, {b.pid.value}, q.pid)
    ensures b in r1.bindings
  {
    assert Occupies(s, b, q.pid);
    var k :| 0 <= k < |r.bindings| && r.bindings[k] == b;
    assert Stays(s, r.bindings, k);
  }

  lemma RunningAllStay(nm: Naming, r: Saved, r1: Saved, s: Sight)
    requires PassRecord(nm, r, r1, s)
    ensures RunningKept(r, r1, s)
  {
    forall b, q {:trigger b in r.bindings, q in s.procs}
      | b in r.bindings && q in s.procs && b.ns in s.spaces
        && q.netns == Some(b.ns) && b.pid.Some? && Reachable(s.procs, None, {b.pid.value}, q.pid)
      ensures b in r1.bindings
    {
      RunningStays(nm, r, r1, s, b, q);
    }
  }

  /** Dropping dead bindings and empty adoptions keeps the record invariant. */
  lemma BindingsPassKeepsGood(nm: Naming, r: Saved, s: Sight)
    requires Good(nm, r)
    ensures Good(nm, Judged(r, s))
  {
    assert [] + r.bindings == r.bindings;
    SurvivorsLive(s, [], r.bindings);
    SurvivorsDistinct(s, [], r.bindings);
    FilterSlots(r.adoptions, (a: Adoption) => !EmptyGroup(s, a.group));
  }

  /** A whole pass does. */
  lemma PassKeepsGood(nm: Naming, r: Saved, s: Sight)
    requires Good(nm, r)
    ensures Good(nm, AfterPass(nm, r, s))
  {
    BindingsPassKeepsGood(nm, r, s);
    var r1 := AfterPass(nm, r, s);
    forall b | b in r1.bindings ensures Derived(nm, r1, b) {
      assert HasBinding(r1.bindings, b.iface);
    }
  }

  lemma {:induction false} SurvivorsDistinct(s: Sight, kept: seq<Binding>, todo: seq<Binding>)
    requires DistinctApps(kept + todo)
    ensures DistinctApps(Survivors(s, kept, todo))
    decreases |todo|
  {
    if todo == [] {
      assert kept + todo == kept;
    } else {
      var x, rest := todo[0], todo[1..];
      assert kept + todo == (kept + [x]) + rest;
      assert forall k | 0 <= k < |kept + rest| :: (kept + rest)[k] == (kept + todo)[if k < |kept| then k else k + 1];
      SurvivorsDistinct(s, if Live(s, kept + todo, x) then kept + [x] else kept, rest);
    }
  }

  /** This adoption shares its slot and its id with none of the list. */
  ghost predicate Alone(a: Adoption, xs: seq<Adoption>) { forall x | x in xs :: x.slot != a.slot && x.id != a.id }

  lemma HeadAlone(a: Adoption, xs: seq<Adoption>)
    ensures DistinctSlots([a] + xs) <==> GoodAdoption(a) && DistinctSlots(xs) && Alone(a, xs)
  {
    if DistinctSlots([a] + xs) {
      assert forall k | 0 <= k < |xs| :: ([a] + xs)[k + 1] == xs[k];
      assert GoodAdoption(([a] + xs)[0]);
    }
  }

  lemma {:induction false} FilterSlots(xs: seq<Adoption>, p: Adoption -> bool)
    requires DistinctSlots(xs)
    ensures DistinctSlots(Filter(xs, p))
  {
    if xs != [] {
      assert xs == [xs[0]] + xs[1..];
      HeadAlone(xs[0], xs[1..]);
      FilterSlots(xs[1..], p);
      HeadAlone(xs[0], Filter(xs[1..], p));
    }
  }

  // -------------------------------------------------------------- the pass

  function SightOf(m: Host, unreadable: set<string>): Sight
    reads m
  {
    Sight(m.procs, m.kern.namespaces, m.kern.groups, unreadable)
  }

  method BindingLive(s: Sight, bs: seq<Binding>, b: Binding) returns (live: bool)
    ensures live == Live(s, bs, b)
  {
    var inNs := InSpace(s, b.ns);
    if !HasPid(b) { return inNs != {}; }
    if inNs == {} { return false; }
    var tree := Descendants([b.pid.value], s.procs, None);
    assert Elems([b.pid.value]) == {b.pid.value};
    if exists p | p in tree :: p in inNs {
      var p :| p in tree && p in inNs;
      assert p in Elems(tree) * inNs;
      return true;
    }
    assert Elems(tree) * inNs == {};
    return !Shares(bs, b);
  }

  function RemoveFirst(bs: seq<Binding>, b: Binding): seq<Binding> {
    if bs == [] then [] else if bs[0] == b then bs[1..] else [bs[0]] + RemoveFirst(bs[1..], b)
  }

  lemma {:induction false} RemoveBehind(a: seq<Binding>, b: Binding, c: seq<Binding>)
    requires b !in a
    ensures RemoveFirst(a + [b] + c, b) == a + c
  {
    if a == [] {
      assert [] + [b] + c == [b] + c;
    } else {
      assert (a + [b] + c)[1..] == a[1..] + [b] + c;
      RemoveBehind(a[1..], b, c);
    }
  }

  /** The drop loop of teardown_idle; `cidrFor` remembers the subnet of every interface it meets. */
  method DropDead(s: Sight, st: State, cidrFor: map<string, nat>) returns (cidrs: map<string, nat>)
    modifies st`bindings
    ensures st.bindings == Survivors(s, [], old(st.bindings))
    ensures (forall b | b in old(st.bindings) :: b.iface in cidrFor) ==> cidrs == cidrFor
  {
    var all := st.bindings;
    ghost var kept: seq<Binding> := [];
    cidrs := cidrFor;
    assert [] + all == all;
    for i := 0 to |all|
      invariant st.bindings == kept + all[i..] && AllLive(s, st.bindings, kept)
      invariant Survivors(s, [], all) == Survivors(s, kept, all[i..])
      invariant (forall b | b in all :: b.iface in cidrFor) ==> cidrs == cidrFor
    {
      var b := all[i];
      assert all[i..][0] == b && all[i..][1..] == all[i + 1..];
      assert kept + all[i..] == kept + [b] + all[i + 1..];
      var live := BindingLive(s, st.bindings, b);
      if live {
        kept := kept + [b];
      } else {
        LiveWithout(s, kept, b, all[i + 1..]);
        RemoveBehind(kept, b, all[i + 1..]);
        st.bindings := RemoveFirst(st.bindings, b);
        cidrs := if b.iface in cidrs then cidrs else cidrs[b.iface := b.net];
      }
    }
    assert all[|all|..] == [];
  }

  /** What the adoption part of a pass does to one adoption's slot and group. */
  ghost predicate ReleasedIfEmpty(k0: Kernel, k: Kernel, a: Adoption, empty: bool, clean: bool)
    requires IsSlot(a.slot)
  {
    if empty then clean ==> k.slots[a.slot] == NO_SLOT && a.group !in k.groups else k.slots[a.slot] == k0.slots[a.slot]
  }

  /** Slots of empty groups are cleared (unless something failed), the others are as they were. */
  ghost predicate OnlyEmptyReleased(k0: Kernel, k: Kernel, xs: seq<Adoption>, s: Sight, clean: bool) {
    forall a | a in xs :: IsSlot(a.slot) && ReleasedIfEmpty(k0, k, a, EmptyGroup(s, a.group), clean)
  }

  /** Groups went, but only empty ones that could be read. */
  ghost predicate OnlyEmptyGone(s: Sight, groups: map<string, set<Pid>>) {
    groups.Keys <= s.groups.Keys && (forall g | g in groups :: groups[g] == s.groups[g])
    && forall g | g in s.groups && g !in groups :: EmptyGroup(s, g)
  }

  /** No adoption of the list has an empty group. */
  ghost predicate NoneEmpty(xs: seq<Adoption>, s: Sight) { forall a | a in xs :: !EmptyGroup(s, a.group) }

  method ReleaseIfEmpty(m: Host, a: Adoption, unreadable: set<string>) returns (empty: bool)
    requires m.Valid() && IsSlot(a.slot)
    modifies m`kern, m`dead, m`trace, m`faults, m`stuck
    ensures m.Valid() && old(m.trace) <= m.trace && (old(m.dead) ==> m.dead) && old(m.stuck) <= m.stuck
    ensures old(m.faults) <= m.faults && (m.faults == old(m.faults) ==> m.stuck == old(m.stuck))
    ensures OnlySlot(old(m.kern), m.kern, a.slot)
    ensures m.kern.groups in [old(m.kern).groups, old(m.kern).groups - {a.group}]
    ensures empty == (a.group !in unreadable && Members(old(m.kern), a.group) == {})
    ensures !empty ==> m.kern == old(m.kern)
    ensures ReleasedIfEmpty(old(m.kern), m.kern, a, empty, m.stuck == old(m.stuck) && !m.dead)
  {
    empty := a.group !in unreadable && Members(m.kern, a.group) == {};
    if empty {
      m.ReleasePlumbing(a, []);
    }
  }

  /** Where the loop stands after the first i adoptions; `s0` is the number of failed undo steps before it. */
  ghost predicate ReleasedSoFar(m: Host, xs: seq<Adoption>, i: nat, s: Sight, k0: Kernel, s0: nat)
    requires i <= |xs|
    reads m
  {
    && s.groups == k0.groups && s0 <= m.stuck
    && OnlyAdoption(k0, m.kern) && OnlyEmptyGone(s, m.kern.groups)
    && OnlyEmptyReleased(k0, m.kern, xs[..i], s, m.stuck == s0 && !m.dead)
    && (forall j | i <= j < |xs| :: IsSlot(xs[j].slot) && m.kern.slots[xs[j].slot] == k0.slots[xs[j].slot])
    && (NoneEmpty(xs[..i], s) ==> m.kern == k0)
  }

  lemma EmptyNow(s: Sight, groups: map<string, set<Pid>>, g: string)
    requires OnlyEmptyGone(s, groups)
    ensures EmptyGroup(s, g) <==> g !in s.unreadable && (g in groups ==> groups[g] == {})
  {
  }

  /** One turn of the loop. */
  method ReleaseNext(m: Host, xs: seq<Adoption>, i: nat, ghost s: Sight, ghost k0: Kernel, ghost s0: nat,
                     unreadable: set<string>) returns (empty: bool)
    requires m.Valid() && DistinctSlots(xs) && i < |xs| && s.unreadable == unreadable
    requires ReleasedSoFar(m, xs, i, s, k0, s0)
    modifies m`kern, m`dead, m`trace, m`faults, m`stuck
    ensures m.Valid() && old(m.trace) <= m.trace && (old(m.dead) ==> m.dead) && old(m.stuck) <= m.stuck
    ensures old(m.faults) <= m.faults && (m.faults == old(m.faults) ==> m.stuck == old(m.stuck))
    ensures ReleasedSoFar(m, xs, i + 1, s, k0, s0) && empty == EmptyGroup(s, xs[i].group)
  {
    EmptyNow(s, m.kern.groups, xs[i].group);
    empty := ReleaseIfEmpty(m, xs[i], unreadable);
    assert xs[..i + 1] == xs[..i] + [xs[i]];
    forall a | a in xs[..i] ensures a.slot != xs[i].slot {
      var j :| 0 <= j < i && xs[j] == a;
    }
  }

  method KeepNext(m: Host, xs: seq<Adoption>, i: nat, ghost s: Sight, ghost k0: Kernel, ghost s0: nat,
                  unreadable: set<string>, kept: seq<Adoption>) returns (kept': seq<Adoption>)
    requires m.Valid() && DistinctSlots(xs) && i < |xs| && s.unreadable == unreadable
    requires ReleasedSoFar(m, xs, i, s, k0, s0) && kept == KeptAdoptions(s, xs[..i])
    modifies m`kern, m`dead, m`trace, m`faults, m`stuck
    ensures m.Valid() && old(m.trace) <= m.trace && (old(m.dead) ==> m.dead)
    ensures old(m.faults) <= m.faults && (m.faults == old(m.faults) ==> m.stuck == old(m.stuck))
    ensures ReleasedSoFar(m, xs, i + 1, s, k0, s0) && kept' == KeptAdoptions(s, xs[..i + 1])
  {
    FilterNext(xs, i, (a: Adoption) => !EmptyGroup(s, a.group));
    var empty := ReleaseNext(m, xs, i, s, k0, s0, unreadable);
    kept' := if empty then kept else kept + [xs[i]];
  }

  /** Empty groups are released and their adoptions dropped from the record. */
  method DropEmptyGroups(m: Host, st: State, unreadable: set<string>)
    requires m.Valid() && DistinctSlots(st.adoptions)
    modifies m`kern, m`dead, m`trace, m`faults, m`stuck, st`adoptions
    ensures m.Valid() && old(m.trace) <= m.trace && (old(m.dead) ==> m.dead)
    ensures old(m.faults) <= m.faults && (m.faults == old(m.faults) ==> m.stuck == old(m.stuck))
    ensures st.adoptions == KeptAdoptions(old(SightOf(m, unreadable)), old(st.adoptions))
    ensures var all := old(st.adoptions);
            ReleasedSoFar(m, all, |all|, old(SightOf(m, unreadable)), old(m.kern), old(m.stuck))
  {
    var all := st.adoptions;
    ghost var s, k0, s0 := SightOf(m, unreadable), m.kern, m.stuck;
    var kept: seq<Adoption> := [];
    assert forall j | 0 <= j < |all| :: GoodAdoption(all[j]);
    for i := 0 to |all|
      invariant m.Valid() && old(m.trace) <= m.trace && (old(m.dead) ==> m.dead) && st.adoptions == all
      invariant old(m.faults) <= m.faults && (m.faults == old(m.faults) ==> m.stuck == old(m.stuck))
      invariant ReleasedSoFar(m, all, i, s, k0, s0) && kept == KeptAdoptions(s, all[..i])
    {
      kept := KeepNext(m, all, i, s, k0, s0, unreadable, kept);
    }
    assert all[..|all|] == all;
    st.adoptions := kept;
  }

  lemma FilterNext<T(!new)>(xs: seq<T>, i: nat, keep: T -> bool)
    requires i < |xs|
    ensures Filter(xs[..i + 1], keep) == Filter(xs[..i], keep) + if keep(xs[i]) then [xs[i]] else []
  {
    assert xs[..i + 1] == xs[..i] + [xs[i]];
    FilterConcat(xs[..i], [xs[i]], keep);
  }

  /** `l0` is the number of removals lost before the loop. */
  method TearOne(m: Host, st: State, iface: string, n: nat, ghost r: Saved, ghost k0: Kernel, ghost gone: set<string>,
                 ghost l0: nat) returns (ok: bool)
    requires m.Valid() && Good(m.nm, r) && iface in r.subnets && n == r.subnets[iface]
    requires st.Rec() == Without(r, gone) && Swept(m.nm, r, k0, m.kern, gone, m.lost > l0) && l0 <= m.lost
    modifies m`kern, m`dead, m`trace, m`faults, m`lost, st
    ensures m.Valid() && old(m.trace) <= m.trace && old(m.lost) <= m.lost && (old(m.dead) ==> m.dead)
    ensures old(m.faults) <= m.faults && (m.faults == old(m.faults) ==> ok && m.lost == old(m.lost))
    ensures ok ==> st.Rec() == Without(r, gone + {iface})
    ensures Swept(m.nm, r, k0, m.kern, gone + {iface}, m.lost > l0 || !ok)
  {
    m.Now();
    ghost var k, lost := m.kern, m.lost;
    ghost var cuts;
    ok, cuts := m.TeardownPlumbing(iface, n, m.nm.hash(iface));
    SweptNext(m.nm, r, k0, k, gone, iface, cuts, lost > l0, m.lost > l0 || !ok);
    if ok {
      WithoutOneMore(r, gone, iface);
      st.ForgetIface(iface);
    }
  }

  lemma BusyUnchanged(m: Host, s: Sight, r: Saved, k0: Kernel, gone: set<string>, iface: string)
    requires KeptPlumbing(m.nm, r, k0, m.kern, gone) && iface in r.subnets && iface !in gone
    requires s.procs == m.procs && s.spaces == k0.namespaces
    ensures m.Busy(m.nm.hash(iface)) == BusySpace(s, m.nm.hash(iface))
  {
  }

  lemma IdleNext(nm: Naming, bs: seq<Binding>, s: Sight, seen: set<string>, i: string)
    ensures IdleOf(nm, bs, s, seen + {i})
            == IdleOf(nm, bs, s, seen) + if HasBinding(bs, i) || BusySpace(s, nm.hash(i)) then {} else {i}
  {
  }

  lemma IdleSubset(nm: Naming, bs: seq<Binding>, s: Sight, seen: set<string>, all: set<string>)
    requires seen <= all
    ensures IdleOf(nm, bs, s, seen) <= IdleOf(nm, bs, s, all)
  {
  }

  /** Where the teardown loop stands once the interfaces in `seen` were looked at; `l0` is the number of removals
      lost before it. */
  ghost predicate TornSoFar(m: Host, st: State, r: Saved, k0: Kernel, s: Sight, seen: set<string>, gone: set<string>,
                            l0: nat, ok: bool)
    reads m, st
  {
    && gone == IdleOf(m.nm, r.bindings, s, seen) && s.procs == m.procs && s.spaces == k0.namespaces
    && l0 <= m.lost && Swept(m.nm, r, k0, m.kern, gone, m.lost > l0 || !ok)
    && (ok ==> st.Rec() == Without(r, gone))
  }

  /** One interface of the teardown loop. */
  method TearIfIdle(m: Host, st: State, iface: string, n: nat, ghost r: Saved, ghost k0: Kernel, ghost s: Sight,
                    ghost seen: set<string>, gone: set<string>, ghost l0: nat) returns (ok: bool, gone': set<string>)
    requires m.Valid() && Good(m.nm, r) && iface !in seen && iface in r.subnets && n == r.subnets[iface]
    requires TornSoFar(m, st, r, k0, s, seen, gone, l0, true)
    modifies m`kern, m`dead, m`trace, m`faults, m`lost, st
    ensures m.Valid() && old(m.trace) <= m.trace && old(m.lost) <= m.lost && (old(m.dead) ==> m.dead)
    ensures old(m.faults) <= m.faults && (m.faults == old(m.faults) ==> ok && m.lost == old(m.lost))
    ensures TornSoFar(m, st, r, k0, s, seen + {iface}, gone', l0, ok)
  {
    BusyUnchanged(m, s, r, k0, gone, iface);
    IdleNext(m.nm, r.bindings, s, seen, iface);
    if HasBinding(st.bindings, iface) || m.Busy(m.nm.hash(iface)) {
      ok, gone' := true, gone;
    } else {
      ok := TearOne(m, st, iface, n, r, k0, gone, l0);
      gone' := gone + {iface};
    }
  }

  /** The teardown loop; the first teardown that raises ends it. */
  method TearIdle(m: Host, st: State, cidrFor: map<string, nat>, ghost r: Saved, ghost k0: Kernel, ghost s: Sight)
    returns (ok: bool, gone: set<string>)
    requires m.Valid() && Good(m.nm, r) && cidrFor == r.subnets && st.Rec() == Without(r, {})
    requires k0 == m.kern && s.procs == m.procs && s.spaces == k0.namespaces
    modifies m`kern, m`dead, m`trace, m`faults, m`lost, st
    ensures m.Valid() && old(m.trace) <= m.trace && old(m.lost) <= m.lost && (old(m.dead) ==> m.dead)
    ensures old(m.faults) <= m.faults && (m.faults == old(m.faults) ==> ok && m.lost == old(m.lost))
    ensures Swept(m.nm, r, k0, m.kern, gone, m.lost > old(m.lost) || !ok)
    ensures gone <= IdleOf(m.nm, r.bindings, s, r.subnets.Keys)
    ensures ok ==> st.Rec() == Without(r, gone) && gone == IdleOf(m.nm, r.bindings, s, r.subnets.Keys)
  {
    ghost var l0 := m.lost;
    var all, seen: set<string> := cidrFor.Keys, {};
    ok, gone := true, {};
    while ok && seen != all
      invariant seen <= all
      invariant m.Valid() && old(m.trace) <= m.trace && old(m.lost) <= m.lost && (old(m.dead) ==> m.dead)
      invariant old(m.faults) <= m.faults && (m.faults == old(m.faults) ==> ok && m.lost == old(m.lost))
      invariant TornSoFar(m, st, r, k0, s, seen, gone, l0, ok)
      decreases all - seen
    {
      var iface :| iface in all && iface !in seen;
      ok, gone := TearIfIdle(m, st, iface, cidrFor[iface], r, k0, s, seen, gone, l0);
      seen := seen + {iface};
    }
    IdleSubset(m.nm, r.bindings, s, seen, all);
  }

  datatype PassResult = Finished(torn: set<string>) | Raised

  /** The two judging loops. */
  method Judge(m: Host, st: State, s: Sight) returns (cidrFor: map<string, nat>)
    requires m.Valid() && st.Rec() == m.disk && s == SightOf(m, s.unreadable)
    modifies m`kern, m`dead, m`trace, m`faults, m`stuck, st
    ensures m.Valid() && old(m.trace) <= m.trace && (old(m.dead) ==> m.dead)
    ensures old(m.faults) <= m.faults && (m.faults == old(m.faults) ==> m.stuck == old(m.stuck))
    ensures st.Rec() == Judged(m.disk, s) && cidrFor == st.subnets
    ensures var all := m.disk.adoptions; ReleasedSoFar(m, all, |all|, s, old(m.kern), old(m.stuck))
  {
    m.Now();
    DropEmptyGroups(m, st, s.unreadable);
    cidrFor := DropDead(s, st, st.subnets);
  }

  lemma AdoptionChangeSpares(nm: Naming, r: Saved, k0: Kernel, k1: Kernel, k: Kernel, gone: set<string>)
    requires OnlyAdoption(k0, k1) && KeptPlumbing(nm, r, k1, k, gone)
    ensures KeptPlumbing(nm, r, k0, k, gone)
  {
  }

  lemma FewerGone(nm: Naming, r: Saved, k0: Kernel, k: Kernel, gone: set<string>, most: set<string>)
    requires gone <= most && KeptPlumbing(nm, r, k0, k, gone)
    ensures KeptPlumbing(nm, r, k0, k, most)
  {
  }

  /** The teardown loop and the save. */
  method TearAndSave(m: Host, st: State, cidrFor: map<string, nat>, ghost s: Sight) returns (r: PassResult)
    requires m.Valid() && st.Rec() == Judged(m.disk, s) && cidrFor == st.subnets
    requires s.procs == m.procs && s.spaces == m.kern.namespaces
    modifies m`disk, m`kern, m`dead, m`trace, m`faults, m`lost, st
    ensures m.Valid() && old(m.trace) <= m.trace && (r.Finished? ==> !old(m.dead))
    ensures m.disk == if r.Finished? then AfterPass(m.nm, old(m.disk), s) else old(m.disk)
    ensures var torn := Torn(m.nm, old(m.disk), s);
            && KeptPlumbing(m.nm, old(m.disk), old(m.kern), m.kern, torn) && Shrunk(old(m.kern), m.kern)
            && old(m.kern).namespaces <= m.kern.namespaces + (set i | i in torn :: m.nm.hash(i))
            && (torn == {} ==> m.kern == old(m.kern))
            && (r.Finished? ==>
                  r.torn == torn && (m.lost == old(m.lost) ==> Unplumbed(m.nm, old(m.disk), m.kern, torn)))
    ensures old(m.faults) <= m.faults && (m.faults == old(m.faults) ==> r.Finished? && m.lost == old(m.lost))
  {
    m.Now();
    ghost var r0, k1, l0 := m.disk, m.kern, m.lost;
    BindingsPassKeepsGood(m.nm, r0, s);
    WithoutNothing(Judged(r0, s));
    var ok, gone := TearIdle(m, st, cidrFor, Judged(r0, s), k1, s);
    FewerGone(m.nm, Judged(r0, s), k1, m.kern, gone, Torn(m.nm, r0, s));
    if ok {
      PassInv(m, r0, k1, s, gone, l0);
      ok := m.Save(st);
    }
    r := if ok then Finished(gone) else Raised;
  }

  lemma PassInv(m: Host, r: Saved, k1: Kernel, s: Sight, gone: set<string>, l0: nat)
    requires m.Valid() && Good(m.nm, r) && Stored(m.nm, r) && gone == Torn(m.nm, r, s)
    requires l0 <= m.lost && (l0 == 0 ==> Covered(m.nm, r, k1))
    requires Swept(m.nm, Judged(r, s), k1, m.kern, gone, m.lost > l0)
    ensures Inv(m.nm, World(AfterPass(m.nm, r, s), m.kern, m.lost))
  {
    m.Now();
    PassKeepsGood(m.nm, r, s);
    PassKeepsStored(m.nm, r, s);
    if m.lost == 0 {
      SweptCovered(m.nm, Judged(r, s), k1, m.kern, gone);
    }
  }

  lemma PassKeepsStored(nm: Naming, r: Saved, s: Sight)
    requires Stored(nm, r)
    ensures Stored(nm, AfterPass(nm, r, s))
  {
    assert [] + r.bindings == r.bindings;
    SurvivorsLive(s, [], r.bindings);
  }

  lemma PassLeavesSame(nm: Naming, r: Saved, s: Sight, k1: Kernel, k: Kernel)
    requires OnlyEmptyGone(s, k1.groups) && k1.namespaces == s.spaces
    requires k.groups == k1.groups && k.namespaces <= k1.namespaces
    requires k1.namespaces <= k.namespaces + set i | i in Torn(nm, r, s) :: nm.hash(i)
    ensures SameBusy(s, Sight(s.procs, k.namespaces, k.groups, s.unreadable))
  {
    forall h | BusySpace(s, h) ensures h in k.namespaces {
      assert h in s.spaces && forall i | i in Torn(nm, r, s) :: nm.hash(i) != h;
    }
    forall g | !EmptyGroup(s, g)
      ensures (g in k.groups <==> g in s.groups) && (g in s.groups ==> k.groups[g] == s.groups[g])
    {
    }
  }

  /** The steps of teardown_idle. */
  method RunPass(m: Host, unreadable: set<string>) returns (r: PassResult)
    requires m.Valid()
    modifies m
    ensures m.Valid() && old(m.trace) <= m.trace && m.procs == old(m.procs) && m.signalled == old(m.signalled)
    ensures var s, r0 := old(SightOf(m, unreadable)), old(m.disk);
            && m.disk == (if r.Finished? then AfterPass(m.nm, r0, s) else r0)
            && KeptPlumbing(m.nm, r0, old(m.kern), m.kern, Torn(m.nm, r0, s))
            && (r.Finished? ==> r.torn == Torn(m.nm, r0, s)
                                && (m.lost == old(m.lost) ==> Unplumbed(m.nm, r0, m.kern, r.torn)))
            && (r.Finished? ==> OnlyEmptyReleased(old(m.kern), m.kern, r0.adoptions, s, m.stuck == old(m.stuck)))
            && SameBusy(s, SightOf(m, unreadable))
            && (NoneEmpty(r0.adoptions, s) && Torn(m.nm, r0, s) == {} ==> m.kern == old(m.kern))
    ensures old(m.faults) <= m.faults
    ensures m.faults == old(m.faults) ==> r.Finished? && m.lost == old(m.lost) && m.stuck == old(m.stuck)
  {
    ghost var r0, k0 := m.disk, m.kern;
    var s := SightOf(m, unreadable);
    var st := m.Load();
    var cidrFor := Judge(m, st, s);
    ghost var k1 := m.kern;
    assert r0.adoptions[..|r0.adoptions|] == r0.adoptions;
    r := TearAndSave(m, st, cidrFor, s);
    AdoptionChangeSpares(m.nm, r0, k0, k1, m.kern, Torn(m.nm, r0, s));
    PassLeavesSame(m.nm, r0, s, k1, m.kern);
  }

  /** teardown_idle. */
  method TeardownIdle(m: Host, unreadable: set<string>) returns (r: PassResult)
    requires m.Valid()
    modifies m
    ensures m.Valid() && old(m.trace) <= m.trace && m.procs == old(m.procs) && m.signalled == old(m.signalled)
    ensures var s, r0 := Sight(old(m.procs), old(m.kern).namespaces, old(m.kern).groups, unreadable), old(m.disk);
            && m.disk == (if r.Finished? then AfterPass(m.nm, r0, s) else r0)
            && KeptPlumbing(m.nm, r0, old(m.kern), m.kern, Torn(m.nm, r0, s))
            && (r.Finished? ==> r.torn == Torn(m.nm, r0, s)
                                && (m.lost == old(m.lost) ==> Unplumbed(m.nm, r0, m.kern, r.torn)))
            && (r.Finished? ==> PassRecord(m.nm, r0, m.disk, s) && RunningKept(r0, m.disk, s))
            && (r.Finished? ==> OnlyEmptyReleased(old(m.kern), m.kern, r0.adoptions, s, m.stuck == old(m.stuck)))
            && SameBusy(s, Sight(m.procs, m.kern.namespaces, m.kern.groups, unreadable))
            && (NoneEmpty(r0.adoptions, s) && Torn(m.nm, r0, s) == {} ==> m.kern == old(m.kern))
    ensures old(m.faults) <= m.faults
    ensures m.faults == old(m.faults) ==> r.Finished? && m.lost == old(m.lost) && m.stuck == old(m.stuck)
  {
    m.Now();
    PassRecordIs(m.nm, m.disk, SightOf(m, unreadable));
    r := RunPass(m, unreadable);
  }

  /** Two passes in a row over the same processes and groups: whichever commands of the second fail, it drops
      nothing, tears nothing down, releases nothing and leaves the kernel as it is. */
  method PassTwice(m: Host, unreadable: set<string>)
    returns (r1: PassResult, r2: PassResult, ghost d1: Saved, ghost k1: Kernel)
    requires m.Valid()
    modifies m
    ensures m.Valid() && old(m.trace) <= m.trace
    ensures r1.Finished? ==> d1 == AfterPass(m.nm, old(m.disk), old(SightOf(m, unreadable)))
    ensures r1.Finished? ==> m.disk == d1 && m.kern == k1 && (r2.Finished? ==> r2.torn == {})
  {
    ghost var r0, s := m.disk, SightOf(m, unreadable);
    r1 := TeardownIdle(m, unreadable);
    d1, k1 := m.disk, m.kern;
    ghost var s2 := SightOf(m, unreadable);
    SecondPassIsQuiet(m.nm, r0, s, s2);
    assert r1.Finished? ==> NoneEmpty(d1.adoptions, s2);
    r2 := TeardownIdle(m, unreadable);
  }
}
