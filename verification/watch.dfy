/** The watcher's cheap check against the pass it triggers (intermux/watch.py). */
module Watch {
  import opened Basics
  import opened Procs
  import opened Record
  import opened Idle
  import StateFile

  /** needs_teardown: a binding without processes in its namespace, a subnet without binding, or a group that
      could be read and is empty. */
  predicate NeedsTeardown(r: Saved, s: Sight) {
    || (exists b :: b in r.bindings && !BusySpace(s, b.ns))
    || (exists i | i in r.subnets :: !HasBinding(r.bindings, i))
    || (exists a :: a in r.adoptions && EmptyGroup(s, a.group))
  }

  /** What a pass would take away from the kernel: interfaces torn down or adoptions released. */
  ghost predicate PassRemoves(nm: Naming, r: Saved, s: Sight) {
    Torn(nm, r, s) != {} || exists a :: a in r.adoptions && EmptyGroup(s, a.group)
  }

  /** A recorded interface without binding whose namespace still holds a process. */
  ghost predicate BusyUnbound(nm: Naming, r: Saved, s: Sight) {
    exists i | i in r.subnets :: !HasBinding(r.bindings, i) && BusySpace(s, nm.hash(i))
  }

  lemma YesHasCause(nm: Naming, r: Saved, s: Sight)
    requires Good(nm, r)
    ensures NeedsTeardown(r, s) ==> PassRemoves(nm, r, s) || BusyUnbound(nm, r, s)
  {
    assert [] + r.bindings == r.bindings;
    SurvivorsLive(s, [], r.bindings);
    if b :| b in r.bindings && !BusySpace(s, b.ns) {
      assert Derived(nm, r, b);
      IdleSpaceKeepsNone(nm, r, s, b.iface);
      assert b.iface in Torn(nm, r, s);
    }
    if i :| i in r.subnets && !HasBinding(r.bindings, i) {
      assert !HasBinding(Survivors(s, [], r.bindings), i);
      assert i in Torn(nm, r, s) || BusySpace(s, nm.hash(i));
    }
  }

  /** The check says yes exactly when a pass would remove something or an unbound interface is busy. */
  lemma CheckIsExact(nm: Naming, r: Saved, s: Sight)
    requires Good(nm, r)
    ensures NeedsTeardown(r, s) <==> PassRemoves(nm, r, s) || BusyUnbound(nm, r, s)
  {
    YesHasCause(nm, r, s);
    if i :| i in Torn(nm, r, s) && HasBinding(r.bindings, i) {
      var b :| b in r.bindings && b.iface == i;
      assert Derived(nm, r, b) && !BusySpace(s, b.ns);
    }
  }

  /** A recorded interface whose namespace holds no process, or an adoption whose group could be read and is
      empty. */
  ghost predicate SomethingIdle(nm: Naming, r: Saved, s: Sight) {
    (exists i | i in r.subnets :: !BusySpace(s, nm.hash(i))) || exists a :: a in r.adoptions && EmptyGroup(s, a.group)
  }

  /** A binding that is not live among all recorded ones. */
  ghost predicate StaleBinding(r: Saved, s: Sight) { exists b :: b in r.bindings && !Live(s, r.bindings, b) }

  /** A pass tears down exactly the recorded interfaces whose namespaces hold no process. */
  lemma TornAreIdle(nm: Naming, r: Saved, s: Sight)
    requires Good(nm, r)
    ensures Torn(nm, r, s) == set i | i in r.subnets && !BusySpace(s, nm.hash(i))
    ensures PassRemoves(nm, r, s) <==> SomethingIdle(nm, r, s)
  {
    forall i | i in r.subnets && !BusySpace(s, nm.hash(i)) ensures i in Torn(nm, r, s) {
      IdleSpaceKeepsNone(nm, r, s, i);
    }
  }

  /** A pass changes the record exactly when something is idle or a binding is stale. */
  lemma PassChangesIff(nm: Naming, r: Saved, s: Sight)
    requires Good(nm, r)
    ensures AfterPass(nm, r, s) != r <==> SomethingIdle(nm, r, s) || StaleBinding(r, s)
  {
    var out := Survivors(s, [], r.bindings);
    assert [] + r.bindings == r.bindings;
    TornAreIdle(nm, r, s);
    if AfterPass(nm, r, s) == r {
      SurvivorsLive(s, [], r.bindings);
      assert forall i | i in Torn(nm, r, s) :: i in r.subnets && i !in AfterPass(nm, r, s).subnets;
      assert forall a | a in r.adoptions :: a in KeptAdoptions(s, r.adoptions);
    } else if !SomethingIdle(nm, r, s) && !StaleBinding(r, s) {
      AllLiveStay(s, [], r.bindings);
      FilterAll(r.adoptions, (a: Adoption) => !EmptyGroup(s, a.group));
      WithoutNothing(r);
    }
  }

  /** When the check is right, in terms of what can be looked up before a pass: it is true exactly when a pass
      would change something if and only if something is idle, or a busy interface without binding and a stale
      binding are both there or both absent. */
  lemma CheckIsRightIff(nm: Naming, r: Saved, s: Sight)
    requires Good(nm, r)
    ensures (NeedsTeardown(r, s) <==> AfterPass(nm, r, s) != r)
            <==> (SomethingIdle(nm, r, s) || (BusyUnbound(nm, r, s) <==> StaleBinding(r, s)))
  {
    CheckIsExact(nm, r, s);
    TornAreIdle(nm, r, s);
    PassChangesIff(nm, r, s);
  }

  /** Completeness: when the check says no, a pass tears nothing down and releases nothing; it only drops
      bindings of namespaces that keep another one. */
  lemma QuietCheckMeansQuietPass(nm: Naming, r: Saved, s: Sight)
    requires Good(nm, r) && !NeedsTeardown(r, s)
    ensures Torn(nm, r, s) == {} && AfterPass(nm, r, s) == r.(bindings := Survivors(s, [], r.bindings))
    ensures forall b | b in r.bindings :: CountNs(Survivors(s, [], r.bindings), b.ns) > 0
  {
    CheckIsExact(nm, r, s);
    FilterAll(r.adoptions, (a: Adoption) => !EmptyGroup(s, a.group));
    WithoutNothing(Judged(r, s));
    assert [] + r.bindings == r.bindings;
    forall b | b in r.bindings ensures CountNs(Survivors(s, [], r.bindings), b.ns) > 0 {
      BusyKeepsBinding(s, [], r.bindings, b.ns);
      CountZero(r.bindings, b.ns);
    }
  }

  /** After a pass, the check only still says yes for busy interfaces without binding. */
  lemma PassQuietsCheck(nm: Naming, r: Saved, s: Sight, s2: Sight)
    requires Good(nm, r) && SameBusy(s, s2)
    ensures var r1 := AfterPass(nm, r, s);
            NeedsTeardown(r1, s2) <==> BusyUnbound(nm, r1, s2)
  {
    var r1 := AfterPass(nm, r, s);
    PassKeepsGood(nm, r, s);
    CheckIsExact(nm, r1, s2);
    SecondPassIsQuiet(nm, r, s, s2);
    forall a | a in r1.adoptions ensures !EmptyGroup(s2, a.group) {
      assert !EmptyGroup(s, a.group);
    }
  }

  function OneName(lib: StateFile.Lib): Naming {
    Naming((i: string) => 7, (h: Hash) => "veth0_00000007", {"wlan0"}, lib, true)
  }

  const STALE := Binding("wlan0", "/usr/bin/wget", 7, 1, NetTable(1), NetPriority(1), false, Some(41))
  const LIVE := Binding("wlan0", "/usr/bin/curl", 7, 1, NetTable(1), NetPriority(1), false, Some(40))
  const CURL := Proc(40, 1, "curl", 1000, None, Some(7))
  const ONE_PROC := Sight([CURL], {7}, map[], {})
  const TWO_BINDINGS := EMPTY.(subnets := map["wlan0" := 1], bindings := [STALE, LIVE])
  const NO_BINDING := EMPTY.(subnets := map["wlan0" := 1])

  lemma CurlIsBusy()
    ensures 40 in InSpace(ONE_PROC, 7) && InSpace(ONE_PROC, 7) <= {40}
  {
  }

  /** The documented equivalence fails one way: a busy interface without binding makes the check say yes while
      a pass changes nothing. */
  lemma YesWithNothingToDo(lib: StateFile.Lib)
    ensures Good(OneName(lib), NO_BINDING) && NeedsTeardown(NO_BINDING, ONE_PROC)
    ensures AfterPass(OneName(lib), NO_BINDING, ONE_PROC) == NO_BINDING
  {
    CurlIsBusy();
    assert !HasBinding(NO_BINDING.bindings, "wlan0") && "wlan0" in NO_BINDING.subnets;
    assert Torn(OneName(lib), NO_BINDING, ONE_PROC) == {};
    WithoutNothing(Judged(NO_BINDING, ONE_PROC));
  }

  lemma StaleSiblingGoes(s: Sight, stale: Binding, live: Binding)
    requires stale.ns == live.ns && stale != live && BusySpace(s, live.ns) && HasPid(stale)
    requires Family(s.procs, None, {stale.pid.value}) * InSpace(s, stale.ns) == {}
    ensures Survivors(s, [], [stale, live]) == [live]
  {
    var bs := [stale, live];
    assert bs[1..] == [live] && [live][1..] == [] && [] + bs == bs && [] + [live] == [live];
    assert CountNs([live], live.ns) == 1 && CountNs(bs, live.ns) == 2;
    assert !Live(s, bs, stale) && Live(s, [live], live);
    assert Survivors(s, [], [live]) == Survivors(s, [live], []);
  }

  /** And the other way: the check says no while a pass drops a stale binding beside a live one. */
  lemma NoWithABindingToDrop(lib: StateFile.Lib)
    ensures Good(OneName(lib), TWO_BINDINGS) && !NeedsTeardown(TWO_BINDINGS, ONE_PROC)
    ensures AfterPass(OneName(lib), TWO_BINDINGS, ONE_PROC).bindings == [LIVE]
  {
    CurlIsBusy();
    assert HasBinding(TWO_BINDINGS.bindings, "wlan0") by { assert LIVE in TWO_BINDINGS.bindings; }
    FamilyIsLeast(ONE_PROC.procs, None, {41}, {41});
    StaleSiblingGoes(ONE_PROC, STALE, LIVE);
  }
}
