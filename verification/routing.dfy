/** Policy route tables: what ensure_policy does to them and what a lookup then finds
    (intermux/system/routing.py). */
module Routing {
  import opened Basics
  import opened Subnets

  const ROUTE_METRIC := 100       // of the default through the interface
  const BLACKHOLE_METRIC := 1000  // of the unreachable default behind it
  const TABLE_BASE := 1000
  const PRIORITY_BASE := 1000

  datatype Dst = Default | To(net: Net)

  /** An entry of a route table. Metric 0 is a route listed without a metric. */
  datatype Route =
    | Unicast(dst: Dst, dev: string, gateway: Option<string>, metric: nat)
    | Special(kind: string, dst: Dst, metric: nat)

  /** A route table, in the kernel's order. The kernel never holds the same route twice. */
  type Table = seq<Route>

  /** The uplink a namespace subnet is routed through. */
  datatype Policy = Policy(subnet: Net, iface: string, gateway: Option<string>, veth: Option<string>)

  predicate SameKey(a: Route, b: Route) { a.dst == b.dst && a.metric == b.metric }

  function IfaceRoute(p: Policy): Route { Unicast(Default, p.iface, p.gateway, ROUTE_METRIC) }
  function Fallback(): Route { Special("unreachable", Default, BLACKHOLE_METRIC) }

  /** wanted_routes: everything else in the table is stray. */
  function Wanted(p: Policy): seq<Route> {
    [IfaceRoute(p), Fallback()]
    + if p.veth.Some? then [Unicast(To(p.subnet), p.veth.value, None, 0)] else []
  }

  /** The `ip route replace` commands of ensure_policy, in order. */
  function Replacements(p: Policy): seq<Route> {
    (if p.veth.Some? then [Unicast(To(p.subnet), p.veth.value, None, 0)] else [])
    + [IfaceRoute(p), Fallback()]
  }

  /** policy_table_ok: exactly the wanted routes. */
  predicate TableOk(t: Table, p: Policy) {
    (forall w | w in Wanted(p) :: w in t) && (forall r | r in t :: r in Wanted(p))
  }

  function Strays(t: Table, p: Policy): Table { Filter(t, (r: Route) => r !in Wanted(p)) }

  // -------------------------------------------------------------- kernel commands

  /** Position of the first route with the key of `r`, or |t|. */
  function FirstWithKey(t: Table, r: Route): (i: nat)
    ensures i <= |t|
    ensures i < |t| ==> SameKey(t[i], r)
    ensures forall j | 0 <= j < i :: !SameKey(t[j], r)
  {
    if t == [] || SameKey(t[0], r) then 0 else 1 + FirstWithKey(t[1..], r)
  }

  /** `ip route replace`: the first route of the same destination and metric is overwritten, else one is
      added. The kernel refuses (file exists) when the very route is there behind another of its key. */
  function Replace(t: Table, r: Route): Option<Table> {
    var i := FirstWithKey(t, r);
    if i == |t| then Some(t + [r])
    else if t[i] == r then Some(t)
    else if r in t then None
    else Some(t[i := r])
  }

  /** The routes an `ip route del` built from the listed entry `s` can match: attributes the listing did
      not show (no metric, no gateway) match anything. */
  predicate DelMatches(s: Route, r: Route) {
    r.dst == s.dst && (s.metric == 0 || r.metric == s.metric)
    && (match s
        case Unicast(_, dev, gw, _) => r.Unicast? && r.dev == dev && (gw == None || r.gateway == gw)
        case Special(kind, _, _) => r.Special? && r.kind == kind)
  }

  /** Position of the route `ip route del` picks: the match of lowest metric, earliest first; |t| if none. */
  function DelPick(t: Table, s: Route): (i: nat)
    ensures i <= |t|
    ensures i < |t| ==> DelMatches(s, t[i])
    ensures forall j | 0 <= j < |t| && DelMatches(s, t[j]) :: i < |t| && t[i].metric <= t[j].metric
    ensures forall j | 0 <= j < i < |t| && DelMatches(s, t[j]) :: t[i].metric < t[j].metric
  {
    if t == [] then 0
    else
      var k := DelPick(t[1..], s);
      if DelMatches(s, t[0]) && (k == |t| - 1 || t[0].metric <= t[k + 1].metric) then 0 else k + 1
  }

  function Delete(t: Table, s: Route): Table {
    var i := DelPick(t, s);
    if i == |t| then t else t[..i] + t[i + 1..]
  }

  function ReplaceAll(t: Table, rs: seq<Route>): Option<Table>
    decreases |rs|
  {
    if rs == [] then Some(t)
    else
      var t1 := Replace(t, rs[0]);
      if t1 == None then None else ReplaceAll(t1.value, rs[1..])
  }

  /** The deletes of listed routes in order, each of which may fail (ensure_policy goes on regardless). */
  function DeleteSome(t: Table, ss: seq<Route>, oks: seq<bool>): Table
    requires |oks| == |ss|
    decreases |ss|
  {
    if ss == [] then t else DeleteSome(if oks[0] then Delete(t, ss[0]) else t, ss[1..], oks[1..])
  }

  function AllOk(n: nat): seq<bool> { seq(n, i => true) }

  /** The route part of ensure_policy when no command fails: replace, list, delete the strays. */
  function Ensured(t: Table, p: Policy): Option<Table> {
    var full := ReplaceAll(t, Replacements(p));
    if full == None then None
    else
      var strays := Strays(full.value, p);
      Some(DeleteSome(full.value, strays, AllOk(|strays|)))
  }

  // -------------------------------------------------------------- when ensure_policy converges

  /** `r` is in the table and no other route of its key comes before it. */
  predicate IsFirst(t: Table, r: Route) { FirstWithKey(t, r) < |t| && t[FirstWithKey(t, r)] == r }

  /** No wanted route hides behind another route of its key: a check on the listing. */
  predicate Fits(t: Table, p: Policy) {
    forall w | w in Wanted(p) && w in t :: IsFirst(t, w)
  }

  /** A default of the interface's own metric without gateway, behind another one, while a gateway is
      wanted: the command that deletes it matches the wanted default as well. */
  predicate Shadowed(t: Table, p: Policy) {
    var s := Unicast(Default, p.iface, None, ROUTE_METRIC);
    p.gateway.Some? && s in t && !IsFirst(t, s)
  }

  lemma WantedKeysDiffer(p: Policy)
    ensures NoDup(Wanted(p)) && |Wanted(p)| == |Replacements(p)|
    ensures forall w :: w in Wanted(p) <==> w in Replacements(p)
    ensures forall v, w | v in Wanted(p) && w in Wanted(p) && SameKey(v, w) :: v == w
  {
  }

  /** What one replace does: the route is first of its key and nothing of another key moves. */
  lemma ReplaceEffect(t: Table, r: Route, x: Route)
    requires NoDup(t) && Replace(t, r).Some?
    ensures var u := Replace(t, r).value;
            NoDup(u) && IsFirst(u, r)
            && (!SameKey(x, r) ==> (x in u <==> x in t) && (IsFirst(u, x) <==> IsFirst(t, x)))
            && (SameKey(x, r) && x != r ==> (x in u <==> x in t && !IsFirst(t, x)))
  {
    var i := FirstWithKey(t, r);
    var u := Replace(t, r).value;
    assert |u| >= |t| && i < |u| && u[i] == r;
    assert FirstWithKey(u, r) == i;
    assert forall j | 0 <= j < |t| && j != i :: u[j] == t[j];
    MembersOfReplace(t, u, i, x);
    if SameKey(x, r) {
      SameFirst(t, r, x);
    } else {
      FirstElsewhere(t, u, i, x);
    }
  }

  lemma MembersOfReplace(t: Table, u: Table, i: nat, x: Route)
    requires i < |u| && |t| <= |u| <= |t| + 1 && (|u| > |t| ==> i == |t|)
    requires forall j | 0 <= j < |t| && j != i :: u[j] == t[j]
    ensures x != u[i] ==> (x in u <==> exists k :: 0 <= k < |t| && k != i && t[k] == x)
  {
  }

  lemma {:induction false} SameFirst(t: Table, a: Route, b: Route)
    requires SameKey(a, b)
    ensures FirstWithKey(t, a) == FirstWithKey(t, b)
  {
  }

  /** Changing one position to and from other keys leaves the first route of a key where it was. */
  lemma FirstElsewhere(t: Table, u: Table, i: nat, x: Route)
    requires i < |u| && |t| <= |u| <= |t| + 1 && (i < |t| ==> |t| == |u|) && (|u| > |t| ==> i == |t|)
    requires forall j | 0 <= j < |t| && j != i :: u[j] == t[j]
    requires !SameKey(u[i], x) && (i < |t| ==> !SameKey(t[i], x))
    ensures IsFirst(u, x) <==> IsFirst(t, x)
  {
  }

  ghost predicate KeysDiffer(rs: seq<Route>) {
    forall i, j | 0 <= i < j < |rs| :: !SameKey(rs[i], rs[j])
  }

  /** The replaces all go through exactly when no route to be written hides behind another of its key;
      each then comes first of its key, and a route of another kind survives unless it was overwritten. */
  lemma {:induction false} ReplaceAllEffect(t: Table, rs: seq<Route>, x: Route)
    requires NoDup(t) && KeysDiffer(rs)
    ensures ReplaceAll(t, rs).Some? <==> forall w | w in rs && w in t :: IsFirst(t, w)
    ensures ReplaceAll(t, rs).Some? ==>
              var u := ReplaceAll(t, rs).value;
              NoDup(u) && (forall w | w in rs :: IsFirst(u, w))
              && (x !in rs ==> (x in u <==> x in t && ((exists w :: w in rs && SameKey(w, x)) ==> !IsFirst(t, x))))
    decreases |rs|
  {
    if rs != [] {
      var r, rest := rs[0], rs[1..];
      assert forall w | w in rest :: !SameKey(w, r);
      assert forall w :: w in rs <==> w == r || w in rest;
      if Replace(t, r).Some? {
        var t1 := Replace(t, r).value;
        forall w | w in rest ensures (w in t1 <==> w in t) && (IsFirst(t1, w) <==> IsFirst(t, w)) {
          ReplaceEffect(t, r, w);
        }
        ReplaceEffect(t, r, x);
        ReplaceAllEffect(t1, rest, x);
        if ReplaceAll(t1, rest).Some? {
          ReplaceAllEffect(t1, rest, r);
          RestKeepsFirst(t1, rest, r);
        }
      }
    }
  }

  /** Replacing routes of other keys keeps a route first of its key. */
  lemma {:induction false} RestKeepsFirst(t: Table, rs: seq<Route>, r: Route)
    requires NoDup(t) && IsFirst(t, r) && ReplaceAll(t, rs).Some?
    requires forall w | w in rs :: !SameKey(w, r)
    ensures IsFirst(ReplaceAll(t, rs).value, r)
    decreases |rs|
  {
    if rs != [] {
      assert rs[0] in rs;
      ReplaceEffect(t, rs[0], r);
      RestKeepsFirst(Replace(t, rs[0]).value, rs[1..], r);
    }
  }

  /** No delete of a stray can pick a wanted route of the same metric. */
  ghost predicate Harmless(u: Table, p: Policy) {
    forall s, w | s in u && s !in Wanted(p) && w in Wanted(p) && DelMatches(s, w) :: w.metric != s.metric
  }

  lemma OthersStay(s: Table, i: nat, w: Route)
    requires i < |s| && w in s && s[i] != w
    ensures w in s[..i] + s[i + 1..]
  {
  }

  /** The kernel's pick for the first remaining stray is a stray at or before it. */
  lemma PickBefore(a: Table, x: Route, b: Table, p: Policy) returns (i: nat)
    requires Harmless(a + [x] + b, p) && x !in Wanted(p)
    ensures i == DelPick(a + [x] + b, x) && i <= |a| && (a + [x])[i] == (a + [x] + b)[i] && (a + [x])[i] !in Wanted(p)
  {
    var t := a + [x] + b;
    i := DelPick(t, x);
    assert t[|a|] == x && DelMatches(x, t[|a|]);
    assert i <= |a| && t[i].metric == x.metric;
    assert t[i] in t;
  }

  /** Deleting the first remaining stray takes a stray at or before it. */
  lemma DeleteStray(a: Table, x: Route, b: Table, p: Policy) returns (a': Table)
    requires NoDup(a + [x] + b) && Harmless(a + [x] + b, p) && x !in Wanted(p)
    ensures Delete(a + [x] + b, x) == a' + b
    ensures forall r :: r in a' ==> r in a + [x]
    ensures forall w | w in a && w in Wanted(p) :: w in a'
    ensures (forall r | r in a :: r in Wanted(p)) ==> a' == a
  {
    var i := PickBefore(a, x, b, p);
    a' := (a + [x])[..i] + (a + [x])[i + 1..];
    assert (a + [x] + b)[..i] + (a + [x] + b)[i + 1..] == a' + b;
    forall w | w in a && w in Wanted(p) ensures w in a' {
      OthersStay(a + [x], i, w);
    }
    if forall r | r in a :: r in Wanted(p) {
      assert i == |a|;
      assert (a + [x])[..i] == a && (a + [x])[i + 1..] == [];
    }
  }

  /** Whichever deletes fail, no wanted route goes; when none fails, only the wanted ones stay. */
  lemma {:induction false} StraysGo(a: Table, b: Table, p: Policy, oks: seq<bool>)
    requires NoDup(a + b) && Harmless(a + b, p) && |oks| == |Strays(b, p)|
    ensures var u := DeleteSome(a + b, Strays(b, p), oks);
            (forall w | w in Wanted(p) && w in a + b :: w in u)
            && (oks == AllOk(|oks|) && (forall r | r in a :: r in Wanted(p)) ==> forall r | r in u :: r in Wanted(p))
    decreases |b|
  {
    if b == [] {
      assert a + b == a;
    } else if b[0] in Wanted(p) {
      assert (a + [b[0]]) + b[1..] == a + b;
      StraysGo(a + [b[0]], b[1..], p, oks);
    } else {
      var x, rest := b[0], b[1..];
      assert a + [x] + rest == a + b;
      assert Strays(b, p) == [x] + Strays(rest, p);
      assert Strays(b, p)[1..] == Strays(rest, p);
      if oks[0] {
        var a' := DeleteStray(a, x, rest, p);
        DeleteNoDup(a + b, x);
        assert forall r | r in a' + rest :: r in a + b;
        assert oks == AllOk(|oks|) ==> oks[1..] == AllOk(|oks| - 1);
        StraysGo(a', rest, p, oks[1..]);
      } else {
        StraysGo(a + [x], rest, p, oks[1..]);
      }
    }
  }

  lemma DeleteNoDup(t: Table, s: Route)
    requires NoDup(t)
    ensures NoDup(Delete(t, s))
    ensures forall r | r in Delete(t, s) :: r in t
  {
  }

  /** After the replaces, only a shadowing default makes a delete dangerous. */
  lemma OnlyShadowHarms(t: Table, p: Policy)
    requires NoDup(t) && ReplaceAll(t, Replacements(p)).Some?
    ensures var u := ReplaceAll(t, Replacements(p)).value;
            NoDup(u) && (forall w | w in Wanted(p) :: IsFirst(u, w))
            && (Shadowed(t, p) <==> p.gateway.Some? && Unicast(Default, p.iface, None, ROUTE_METRIC) in u)
            && (!Shadowed(t, p) ==> Harmless(u, p))
  {
    WantedKeysDiffer(p);
    var u := ReplaceAll(t, Replacements(p)).value;
    var s := Unicast(Default, p.iface, None, ROUTE_METRIC);
    ReplaceAllEffect(t, Replacements(p), s);
    assert IfaceRoute(p) in Replacements(p) && SameKey(IfaceRoute(p), s);
    if p.gateway.Some? {
      assert s !in Replacements(p);
    }
  }

  /** A delete of the shadowing default takes the wanted default, and no later delete brings it back. */
  lemma {:induction false} ShadowTakesDefault(t: Table, p: Policy, ss: seq<Route>)
    requires NoDup(t) && p.gateway.Some? && (IfaceRoute(p) in t ==> IsFirst(t, IfaceRoute(p)))
    requires IfaceRoute(p) !in t || Unicast(Default, p.iface, None, ROUTE_METRIC) in ss
    ensures IfaceRoute(p) !in DeleteSome(t, ss, AllOk(|ss|))
    decreases |ss|
  {
    if ss != [] {
      var w, s := IfaceRoute(p), Unicast(Default, p.iface, None, ROUTE_METRIC);
      var t1 := Delete(t, ss[0]);
      var i := DelPick(t, ss[0]);
      DeleteNoDup(t, ss[0]);
      assert AllOk(|ss|)[1..] == AllOk(|ss| - 1);
      if w in t {
        var k := FirstWithKey(t, w);
        if ss[0] == s {
          assert DelMatches(s, t[k]);
          assert i == k;
          assert w !in t1;
        } else if i < |t| && w in t1 {
          FirstAfterDelete(t, i, w);
        }
      }
      ShadowTakesDefault(t1, p, ss[1..]);
    }
  }

  lemma FirstAfterDelete(t: Table, i: nat, w: Route)
    requires i < |t| && NoDup(t) && IsFirst(t, w) && w in t[..i] + t[i + 1..]
    ensures IsFirst(t[..i] + t[i + 1..], w)
  {
  }

  lemma EnsuredIffFits(t: Table, p: Policy)
    requires NoDup(t)
    ensures Ensured(t, p).Some? <==> Fits(t, p)
    ensures Fits(t, p) <==> ReplaceAll(t, Replacements(p)).Some?
  {
    WantedKeysDiffer(p);
    ReplaceAllEffect(t, Replacements(p), Fallback());
  }

  /** Whatever deletes fail, an unshadowed ensure_policy keeps every wanted route it wrote. */
  lemma WantedSurvive(t: Table, p: Policy, oks: seq<bool>)
    requires NoDup(t) && Fits(t, p) && !Shadowed(t, p)
    requires ReplaceAll(t, Replacements(p)).Some? && |oks| == |Strays(ReplaceAll(t, Replacements(p)).value, p)|
    ensures var u := ReplaceAll(t, Replacements(p)).value;
            forall w | w in Wanted(p) :: w in DeleteSome(u, Strays(u, p), oks)
    ensures oks == AllOk(|oks|) ==>
              var u := ReplaceAll(t, Replacements(p)).value;
              forall r | r in DeleteSome(u, Strays(u, p), oks) :: r in Wanted(p)
  {
    var u := ReplaceAll(t, Replacements(p)).value;
    OnlyShadowHarms(t, p);
    assert [] + u == u;
    StraysGo([], u, p, oks);
  }

  lemma ShadowedLosesDefault(t: Table, p: Policy)
    requires NoDup(t) && Fits(t, p) && Shadowed(t, p)
    ensures Ensured(t, p).Some? && IfaceRoute(p) !in Ensured(t, p).value
  {
    EnsuredIffFits(t, p);
    var u := ReplaceAll(t, Replacements(p)).value;
    OnlyShadowHarms(t, p);
    assert Wanted(p)[0] == IfaceRoute(p) && IsFirst(u, IfaceRoute(p));
    ShadowTakesDefault(u, p, Strays(u, p));
  }

  /** ensure_policy ends with exactly the wanted routes if and only if no wanted route hides behind another
      of its key and no gateway-less default of the same metric hides behind the first one. */
  lemma EnsureConverges(t: Table, p: Policy)
    requires NoDup(t)
    ensures (Ensured(t, p).Some? && TableOk(Ensured(t, p).value, p)) <==> (Fits(t, p) && !Shadowed(t, p))
  {
    EnsuredIffFits(t, p);
    if Fits(t, p) {
      if Shadowed(t, p) {
        ShadowedLosesDefault(t, p);
        assert Wanted(p)[0] == IfaceRoute(p);
      } else {
        WantedSurvive(t, p, AllOk(|Strays(ReplaceAll(t, Replacements(p)).value, p)|));
      }
    }
  }

  /** In a table without two routes of one destination and metric it always converges. */
  lemma UniqueKeysConverge(t: Table, p: Policy)
    requires NoDup(t) && KeysDiffer(t)
    ensures Ensured(t, p).Some? && TableOk(Ensured(t, p).value, p)
  {
    forall w | w in t ensures IsFirst(t, w) {
      var k :| 0 <= k < |t| && t[k] == w;
      assert FirstWithKey(t, w) <= k;
    }
    EnsureConverges(t, p);
  }

  /** A second ensure_policy changes nothing. */
  lemma EnsureIsIdempotent(t: Table, p: Policy)
    requires NoDup(t) && TableOk(t, p)
    ensures Ensured(t, p) == Some(t) && Strays(t, p) == []
  {
    WantedKeysDiffer(p);
    forall w | w in t ensures IsFirst(t, w) {
      var k := FirstWithKey(t, w);
      assert k < |t| && t[k] in Wanted(p) && SameKey(t[k], w);
    }
    var rs := Replacements(p);
    forall w | w in rs ensures Replace(t, w) == Some(t) {
      assert w in t;
    }
    ReplaceAllSame(t, rs);
    NothingStray(t, p);
  }

  lemma NothingStray(t: Table, p: Policy)
    requires forall r | r in t :: r in Wanted(p)
    ensures Strays(t, p) == []
    ensures DeleteSome(t, Strays(t, p), AllOk(|Strays(t, p)|)) == t
  {
    FilterNone(t, (r: Route) => r !in Wanted(p));
  }

  lemma {:induction false} ReplaceAllSame(t: Table, rs: seq<Route>)
    requires forall w | w in rs :: Replace(t, w) == Some(t)
    ensures ReplaceAll(t, rs) == Some(t)
    decreases |rs|
  {
    if rs != [] {
      assert rs[0] in rs;
      ReplaceAllSame(t, rs[1..]);
    }
  }

  /** Concrete: behind a default via the gateway sits one without gateway on the same interface; the
      delete meant for the second takes the first, and the interface default is gone. */
  lemma ShadowWitness()
    ensures var p := Policy(PoolNet(7), "wlan0", Some("10.64.0.1"), Some("veth0_0a0b0c0d"));
            var t := [Unicast(Default, "wlan0", Some("10.64.0.1"), 100), Unicast(Default, "wlan0", None, 100)];
            NoDup(t) && Ensured(t, p).Some? && !TableOk(Ensured(t, p).value, p)
  {
    var p := Policy(PoolNet(7), "wlan0", Some("10.64.0.1"), Some("veth0_0a0b0c0d"));
    var t := [Unicast(Default, "wlan0", Some("10.64.0.1"), 100), Unicast(Default, "wlan0", None, 100)];
    assert FirstWithKey(t, t[0]) == 0 && FirstWithKey(t, t[1]) == 0;
    assert Fits(t, p) && Shadowed(t, p);
    EnsureConverges(t, p);
  }

  /** Concrete: the wanted default sits behind another one of its metric, so the replace is refused. */
  lemma HiddenWitness()
    ensures var p := Policy(PoolNet(7), "wlan0", None, Some("veth0_0a0b0c0d"));
            var t := [Unicast(Default, "eth0", None, 100), Unicast(Default, "wlan0", None, 100)];
            NoDup(t) && Ensured(t, p) == None
  {
    var p := Policy(PoolNet(7), "wlan0", None, Some("veth0_0a0b0c0d"));
    var t := [Unicast(Default, "eth0", None, 100), Unicast(Default, "wlan0", None, 100)];
    assert t[0].dev != t[1].dev;
    assert IfaceRoute(p) == t[1] && Wanted(p)[0] == IfaceRoute(p);
    assert FirstWithKey(t, t[1]) == 0;
    EnsuredIffFits(t, p);
  }

  // -------------------------------------------------------------- every step of ensure_policy

  lemma {:induction false} ReplaceOneMore(t: Table, rs: seq<Route>, k: nat)
    requires k < |rs| && ReplaceAll(t, rs[..k]).Some?
    ensures ReplaceAll(t, rs[..k + 1]) == Replace(ReplaceAll(t, rs[..k]).value, rs[k])
    decreases k
  {
    if k == 0 {
      assert rs[..1] == [rs[0]] && [rs[0]][1..] == [];
    } else {
      assert rs[..k][1..] == rs[1..][..k - 1] && rs[..k + 1][1..] == rs[1..][..k];
      ReplaceOneMore(Replace(t, rs[0]).value, rs[1..], k - 1);
    }
  }

  /** Once one of the replaces fails, the whole sequence does. */
  lemma {:induction false} PrefixDecides(t: Table, rs: seq<Route>, k: nat)
    requires k <= |rs|
    ensures ReplaceAll(t, rs).Some? ==> ReplaceAll(t, rs[..k]).Some?
    decreases |rs|
  {
    if k > 0 && Replace(t, rs[0]).Some? {
      assert rs[..k][1..] == rs[1..][..k - 1];
      PrefixDecides(Replace(t, rs[0]).value, rs[1..], k - 1);
    }
  }

  lemma {:induction false} DeleteOneMore(t: Table, ss: seq<Route>, i: nat, oks: seq<bool>, ok: bool)
    requires i < |ss| && |oks| == i
    ensures var u := DeleteSome(t, ss[..i], oks);
            DeleteSome(t, ss[..i + 1], oks + [ok]) == if ok then Delete(u, ss[i]) else u
    decreases i
  {
    if i == 0 {
      assert ss[..1] == [ss[0]] && [ss[0]][1..] == [] && (oks + [ok])[1..] == [];
    } else {
      assert ss[..i][1..] == ss[1..][..i - 1] && ss[..i + 1][1..] == ss[1..][..i];
      assert (oks + [ok])[1..] == oks[1..] + [ok];
      DeleteOneMore(if oks[0] then Delete(t, ss[0]) else t, ss[1..], i - 1, oks[1..], ok);
    }
  }

  /** The tables ensure_policy can leave behind, at any of its steps: some of the replaces done, or all of
      them and some of the deletes. */
  ghost predicate OnTrail(t: Table, p: Policy, u: Table) {
    || (exists k | 0 <= k <= |Replacements(p)| :: ReplaceAll(t, Replacements(p)[..k]) == Some(u))
    || (ReplaceAll(t, Replacements(p)).Some? && Cleaned(ReplaceAll(t, Replacements(p)).value, p, u))
  }

  ghost predicate Cleaned(full: Table, p: Policy, u: Table) {
    exists i, oks | 0 <= i <= |Strays(full, p)| && |oks| == i :: u == DeleteSome(full, Strays(full, p)[..i], oks)
  }

  lemma CleanedStart(full: Table, p: Policy)
    ensures Cleaned(full, p, full)
  {
    assert Strays(full, p)[..0] == [] && DeleteSome(full, Strays(full, p)[..0], []) == full;
  }

  /** One more delete, done or failed, is one more step of the cleaning. */
  lemma CleanedNext(full: Table, p: Policy, i: nat, oks: seq<bool>, ok: bool)
    requires i < |Strays(full, p)| && |oks| == i
    ensures var u := DeleteSome(full, Strays(full, p)[..i], oks);
            DeleteSome(full, Strays(full, p)[..i + 1], oks + [ok]) == (if ok then Delete(u, Strays(full, p)[i]) else u)
            && Cleaned(full, p, if ok then Delete(u, Strays(full, p)[i]) else u)
  {
    var ss, oks' := Strays(full, p), oks + [ok];
    DeleteOneMore(full, ss, i, oks, ok);
    assert i + 1 <= |ss| && |oks'| == i + 1;
    assert Cleaned(full, p, DeleteSome(full, ss[..i + 1], oks'));
  }

  lemma {:induction false} NoDeletes(t: Table, ss: seq<Route>)
    ensures DeleteSome(t, ss, seq(|ss|, j => false)) == t
    decreases |ss|
  {
    var none := seq(|ss|, j => false);
    if ss != [] {
      assert none[1..] == seq(|ss[1..]|, j => false) && !none[0];
      NoDeletes(t, ss[1..]);
    }
  }

  lemma {:induction false} PadDeletes(t: Table, ss: seq<Route>, i: nat, oks: seq<bool>)
    requires i <= |ss| && |oks| == i
    ensures DeleteSome(t, ss, oks + seq(|ss| - i, j => false)) == DeleteSome(t, ss[..i], oks)
    decreases |ss|
  {
    var none := seq(|ss| - i, j => false);
    if i == 0 {
      assert oks + none == none && ss[..0] == [];
      NoDeletes(t, ss);
    } else {
      assert ss[..i][1..] == ss[1..][..i - 1] && ss[..i][0] == ss[0];
      assert (oks + none)[1..] == oks[1..] + none && (oks + none)[0] == oks[0];
      PadDeletes(if oks[0] then Delete(t, ss[0]) else t, ss[1..], i - 1, oks[1..]);
    }
  }

  lemma CleanedKeepsWanted(t: Table, p: Policy, u: Table)
    requires NoDup(t) && Fits(t, p) && !Shadowed(t, p) && ReplaceAll(t, Replacements(p)).Some?
    requires Cleaned(ReplaceAll(t, Replacements(p)).value, p, u)
    ensures forall w | w in Wanted(p) :: w in u
  {
    var full := ReplaceAll(t, Replacements(p)).value;
    var i, oks :| 0 <= i <= |Strays(full, p)| && |oks| == i && u == DeleteSome(full, Strays(full, p)[..i], oks);
    PadDeletes(full, Strays(full, p), i, oks);
    WantedSurvive(t, p, oks + seq(|Strays(full, p)| - i, j => false));
  }

  /** At every step on the trail the table is not empty once the first replace is done, and once the
      replaces are done every wanted route stays, whichever deletes fail. */
  lemma TrailKeepsRouting(t: Table, p: Policy, u: Table)
    requires NoDup(t) && Fits(t, p) && !Shadowed(t, p) && OnTrail(t, p, u)
    ensures u != [] || u == t
    ensures ReplaceAll(t, Replacements(p)).Some?
    ensures Cleaned(ReplaceAll(t, Replacements(p)).value, p, u) ==> forall w | w in Wanted(p) :: w in u
  {
    EnsuredIffFits(t, p);
    if Cleaned(ReplaceAll(t, Replacements(p)).value, p, u) {
      CleanedKeepsWanted(t, p, u);
      assert Wanted(p)[1] in u;
    } else {
      var k :| 0 <= k <= |Replacements(p)| && ReplaceAll(t, Replacements(p)[..k]) == Some(u);
      if k > 0 {
        ReplacedNotEmpty(t, Replacements(p)[..k]);
      }
    }
  }

  lemma {:induction false} ReplacedNotEmpty(t: Table, rs: seq<Route>)
    requires (t != [] || rs != []) && ReplaceAll(t, rs).Some?
    ensures ReplaceAll(t, rs).value != []
    decreases |rs|
  {
    if rs != [] {
      ReplacedNotEmpty(Replace(t, rs[0]).value, rs[1..]);
    }
  }

  // -------------------------------------------------------------- no wrong uplink

  predicate Covers(r: Route, addr: nat) {
    r.dst.Default? || (r.dst.net.len <= 32 && Holds(r.dst.net, addr))
  }

  function PrefixLen(r: Route): nat { if r.dst.Default? then 0 else r.dst.net.len }

  predicate Beats(a: Route, b: Route) {
    PrefixLen(a) > PrefixLen(b) || (PrefixLen(a) == PrefixLen(b) && a.metric < b.metric)
  }

  /** The kernel's lookup: longest prefix, then lowest metric; None falls through to the next rule. */
  function Lookup(t: Table, addr: nat): (r: Option<Route>)
    ensures r == None <==> forall x | x in t :: !Covers(x, addr)
    ensures r.Some? ==> r.value in t && Covers(r.value, addr)
    ensures r.Some? ==> forall x | x in t && Covers(x, addr) :: !Beats(x, r.value)
  {
    if t == [] then None
    else
      var rest := Lookup(t[1..], addr);
      if Covers(t[0], addr) && (rest == None || !Beats(rest.value, t[0])) then Some(t[0]) else rest
  }

  datatype Exit = Via(dev: string) | Unreachable | FallThrough

  function ExitOf(t: Table, addr: nat): Exit {
    match Lookup(t, addr)
    case None => FallThrough
    case Some(Unicast(_, dev, _, _)) => Via(dev)
    case Some(Special(_, _, _)) => Unreachable
  }

  /** A namespace: its subnet, its bound interface and its host veth. */
  datatype Bound = Bound(subnet: Net, iface: string, veth: string)

  function PolicyOf(b: Bound, gateway: Option<string>): Policy { Policy(b.subnet, b.iface, gateway, Some(b.veth)) }

  /** What a table keeps while links flap and passes are cut short: the fallback, and besides it at most
      the interface default (through whatever gateway) and the subnet on the veth. */
  ghost predicate NoLeak(t: Table, b: Bound) {
    KeysDiffer(t) && Fallback() in t
    && forall r | r in t ::
         || r == Fallback()
         || (r.Unicast? && r.dst == Default && r.dev == b.iface && r.metric == ROUTE_METRIC)
         || r == Unicast(To(b.subnet), b.veth, None, 0)
  }

  /** What happens to a table between and during passes. A pass runs ensure_policy for the gateway of the
      moment and may stop after any number of its replaces; a pass that finds the interface down or the
      table complete runs none of them. */
  datatype Event = LinkDown(dev: string) | Pass(gateway: Option<string>, commands: nat)

  /** The kernel drops every route of a device that goes down. */
  function DropDevice(t: Table, dev: string): Table { Filter(t, (r: Route) => !(r.Unicast? && r.dev == dev)) }

  function After(t: Table, b: Bound, e: Event): Table {
    match e
    case LinkDown(dev) => DropDevice(t, dev)
    case Pass(gateway, commands) =>
      var rs := Replacements(PolicyOf(b, gateway));
      var done := ReplaceAll(t, rs[..if commands < |rs| then commands else |rs|]);
      if done == None then t else done.value
  }

  function AfterAll(t: Table, b: Bound, es: seq<Event>): Table
    decreases |es|
  {
    if es == [] then t else AfterAll(After(t, b, es[0]), b, es[1..])
  }

  lemma InstalledHasNoLeak(t: Table, b: Bound, gateway: Option<string>)
    requires NoDup(t) && TableOk(t, PolicyOf(b, gateway))
    ensures NoLeak(t, b)
  {
    WantedKeysDiffer(PolicyOf(b, gateway));
    assert Wanted(PolicyOf(b, gateway))[1] == Fallback();
    forall i, j | 0 <= i < j < |t| ensures !SameKey(t[i], t[j]) {
      assert t[i] in t && t[j] in t;
    }
  }

  lemma ReplaceKeepsNoLeak(t: Table, b: Bound, gateway: Option<string>, r: Route)
    requires NoLeak(t, b) && r in Replacements(PolicyOf(b, gateway))
    ensures Replace(t, r).Some? && NoLeak(Replace(t, r).value, b)
  {
    var i := FirstWithKey(t, r);
    if r in t {
      var k :| 0 <= k < |t| && t[k] == r;
      assert k == i;
    }
    var u := Replace(t, r).value;
    if i < |t| {
      assert u == t[i := r];
      var f :| 0 <= f < |t| && t[f] == Fallback();
      assert u[f] == Fallback();
    }
    forall x | x in u ensures x in t || x == r {}
  }

  lemma {:induction false} ReplacesKeepNoLeak(t: Table, b: Bound, gateway: Option<string>, rs: seq<Route>)
    requires NoLeak(t, b) && forall r | r in rs :: r in Replacements(PolicyOf(b, gateway))
    ensures ReplaceAll(t, rs).Some? && NoLeak(ReplaceAll(t, rs).value, b)
    decreases |rs|
  {
    if rs != [] {
      assert rs[0] in rs;
      ReplaceKeepsNoLeak(t, b, gateway, rs[0]);
      ReplacesKeepNoLeak(Replace(t, rs[0]).value, b, gateway, rs[1..]);
    }
  }

  lemma {:induction false} DropKeepsKeys(t: Table, dev: string)
    requires KeysDiffer(t)
    ensures KeysDiffer(DropDevice(t, dev))
  {
    if t != [] {
      DropKeepsKeys(t[1..], dev);
      var rest := DropDevice(t[1..], dev);
      forall j | 0 <= j < |rest| ensures !SameKey(t[0], rest[j]) {
        assert rest[j] in t[1..];
      }
      assert DropDevice(t, dev) == rest || DropDevice(t, dev) == [t[0]] + rest;
    }
  }

  lemma EventKeepsNoLeak(t: Table, b: Bound, e: Event)
    requires NoLeak(t, b)
    ensures NoLeak(After(t, b, e), b)
  {
    match e
    case LinkDown(dev) => DropKeepsKeys(t, dev);
    case Pass(gateway, commands) =>
      var rs := Replacements(PolicyOf(b, gateway));
      ReplacesKeepNoLeak(t, b, gateway, rs[..if commands < |rs| then commands else |rs|]);
  }

  /** Over every run of link drops, gateway changes and (possibly cut short) passes from an installed
      table, traffic leaves by the bound interface while its default is there and is unreachable
      otherwise; traffic to the namespace's own subnet may also use its veth. It never leaves by another
      device and never falls through to another table. */
  lemma {:induction false} NoWrongUplink(t: Table, b: Bound, gateway: Option<string>, es: seq<Event>, addr: nat)
    requires NoDup(t) && TableOk(t, PolicyOf(b, gateway))
    ensures var u := AfterAll(t, b, es);
            NoLeak(u, b)
            && (ExitOf(u, addr) == Via(b.iface) || ExitOf(u, addr) == Unreachable || ExitOf(u, addr) == Via(b.veth))
            && (b.subnet.len <= 32 && !Holds(b.subnet, addr) ==>
                  ExitOf(u, addr) == if exists gw :: Unicast(Default, b.iface, gw, ROUTE_METRIC) in u
                                     then Via(b.iface) else Unreachable)
  {
    InstalledHasNoLeak(t, b, gateway);
    RunKeepsNoLeak(t, b, es);
    TightExit(AfterAll(t, b, es), b, addr);
  }

  /** Where traffic leaves by a table that keeps to its interface. */
  lemma TightExit(u: Table, b: Bound, addr: nat)
    requires NoLeak(u, b)
    ensures ExitOf(u, addr) == Via(b.iface) || ExitOf(u, addr) == Unreachable || ExitOf(u, addr) == Via(b.veth)
    ensures b.subnet.len <= 32 && !Holds(b.subnet, addr) ==>
              ExitOf(u, addr) == if exists gw :: Unicast(Default, b.iface, gw, ROUTE_METRIC) in u
                                 then Via(b.iface) else Unreachable
  {
  }

  lemma {:induction false} RunKeepsNoLeak(t: Table, b: Bound, es: seq<Event>)
    requires NoLeak(t, b)
    ensures NoLeak(AfterAll(t, b, es), b)
    decreases |es|
  {
    if es != [] {
      EventKeepsNoLeak(t, b, es[0]);
      RunKeepsNoLeak(After(t, b, es[0]), b, es[1..]);
    }
  }

  /** After any such run a pass that is not cut short restores the exact table, with nothing to delete. */
  lemma PassRestores(t: Table, b: Bound, gateway: Option<string>)
    requires NoLeak(t, b)
    ensures var p := PolicyOf(b, gateway);
            var u := After(t, b, Pass(gateway, 3));
            TableOk(u, p) && Ensured(t, p) == Some(u) && Strays(u, p) == []
  {
    var p := PolicyOf(b, gateway);
    var rs := Replacements(p);
    assert rs[..3] == rs;
    NoLeakNoDup(t, b);
    ReplacesKeepNoLeak(t, b, gateway, rs);
    var u := ReplaceAll(t, rs).value;
    EnsuredIffFits(t, p);
    OnlyShadowHarms(t, p);
    NoLeakNoDup(u, b);
    forall r | r in u ensures r in Wanted(p) {
      WantedHasKey(u, b, p, r);
    }
    NothingStray(u, p);
  }

  /** Wherever ensure_policy stops on a table that kept to the bound interface, it still does; when it goes
      through, the table is exactly the wanted one. */
  lemma TrailKeepsNoLeak(t: Table, b: Bound, gateway: Option<string>, u: Table)
    requires NoLeak(t, b) && OnTrail(t, PolicyOf(b, gateway), u)
    ensures NoLeak(u, b)
    ensures var done := ReplaceAll(t, Replacements(PolicyOf(b, gateway)));
            done.Some? && (Cleaned(done.value, PolicyOf(b, gateway), u) ==> TableOk(u, PolicyOf(b, gateway)))
  {
    var p := PolicyOf(b, gateway);
    var rs := Replacements(p);
    PassRestores(t, b, gateway);
    assert rs[..3] == rs;
    if k :| 0 <= k <= |rs| && ReplaceAll(t, rs[..k]) == Some(u) {
      EventKeepsNoLeak(t, b, Pass(gateway, k));
    }
    EventKeepsNoLeak(t, b, Pass(gateway, 3));
  }

  lemma NoLeakNoDup(t: Table, b: Bound)
    requires NoLeak(t, b)
    ensures NoDup(t)
  {
  }

  lemma WantedHasKey(u: Table, b: Bound, p: Policy, r: Route)
    requires NoLeak(u, b) && p == PolicyOf(b, p.gateway) && r in u
    requires forall w | w in Wanted(p) :: IsFirst(u, w)
    ensures r in Wanted(p)
  {
    assert Wanted(p)[0] == IfaceRoute(p);
    assert Wanted(p)[1] == Fallback();
    assert Wanted(p)[2] == Unicast(To(b.subnet), b.veth, None, 0);
    if r != Fallback() && r.dst == Default {
      var k :| 0 <= k < |u| && u[k] == r;
      var f := FirstWithKey(u, IfaceRoute(p));
      assert IfaceRoute(p) in Wanted(p);
      assert f < |u| && u[f] == IfaceRoute(p);
      assert SameKey(u[f], u[k]);
      assert k == f;
    }
  }

  // -------------------------------------------------------------- tables only InterMux writes to

  /** A route InterMux writes: the fallback, a default at the interface's metric, or the route to the namespace
      subnet of the table, if it has one. */
  predicate Own(r: Route, net: Option<Net>) {
    || r == Fallback()
    || (r.Unicast? && r.dst == Default && r.metric == ROUTE_METRIC)
    || (r.Unicast? && net.Some? && r.dst == To(net.value) && r.metric == 0)
  }

  /** The table holds such routes only, one of each destination and metric. */
  ghost predicate Shape(t: Table, net: Option<Net>) { KeysDiffer(t) && forall r | r in t :: Own(r, net) }

  function SubnetOf(p: Policy): Option<Net> { if p.veth.Some? then Some(p.subnet) else None }

  lemma ShapeNoDup(t: Table, net: Option<Net>)
    requires Shape(t, net)
    ensures NoDup(t)
  {
  }

  lemma ReplaceKeepsShape(t: Table, net: Option<Net>, r: Route)
    requires Shape(t, net) && Own(r, net)
    ensures Replace(t, r).Some? && Shape(Replace(t, r).value, net)
  {
    var i := FirstWithKey(t, r);
    if r in t {
      var k :| 0 <= k < |t| && t[k] == r;
      assert k == i;
    }
    var u := Replace(t, r).value;
    forall x | x in u ensures x in t || x == r {}
  }

  lemma {:induction false} ReplacesKeepShape(t: Table, net: Option<Net>, rs: seq<Route>)
    requires Shape(t, net) && forall r | r in rs :: Own(r, net)
    ensures ReplaceAll(t, rs).Some? && Shape(ReplaceAll(t, rs).value, net)
    decreases |rs|
  {
    if rs != [] {
      assert rs[0] in rs;
      ReplaceKeepsShape(t, net, rs[0]);
      ReplacesKeepShape(Replace(t, rs[0]).value, net, rs[1..]);
    }
  }

  lemma DeleteKeepsShape(t: Table, net: Option<Net>, s: Route)
    requires Shape(t, net)
    ensures Shape(Delete(t, s), net)
  {
    var i := DelPick(t, s);
    if i < |t| {
      var u := t[..i] + t[i + 1..];
      assert forall k | 0 <= k < |u| :: u[k] == t[if k < i then k else k + 1];
    }
  }

  lemma DropKeepsShape(t: Table, net: Option<Net>, dev: string)
    requires Shape(t, net)
    ensures Shape(DropDevice(t, dev), net)
  {
    DropKeepsKeys(t, dev);
  }

  /** On a table only InterMux writes to, the replaces of ensure_policy all go through and leave exactly the
      wanted routes. */
  lemma ReplacesAreExact(t: Table, p: Policy)
    requires Shape(t, SubnetOf(p))
    ensures ReplaceAll(t, Replacements(p)).Some? && TableOk(ReplaceAll(t, Replacements(p)).value, p)
  {
    var rs, net := Replacements(p), SubnetOf(p);
    WantedKeysDiffer(p);
    ShapeNoDup(t, net);
    ReplacesKeepShape(t, net, rs);
    var u := ReplaceAll(t, rs).value;
    ReplaceAllEffect(t, rs, Fallback());
    assert forall w | w in Wanted(p) :: IsFirst(u, w);
    forall x | x in u ensures x in Wanted(p) {
      OwnIsWanted(u, p, x);
    }
  }

  lemma OwnIsWanted(u: Table, p: Policy, x: Route)
    requires Shape(u, SubnetOf(p)) && x in u && forall w | w in Wanted(p) :: IsFirst(u, w)
    ensures x in Wanted(p)
  {
    assert Wanted(p)[0] == IfaceRoute(p) && Wanted(p)[1] == Fallback();
    var w := if x == Fallback() then x else if x.dst == Default then IfaceRoute(p) else Wanted(p)[2];
    assert w in Wanted(p) && SameKey(w, x);
    var k :| 0 <= k < |u| && u[k] == x;
    assert u[FirstWithKey(u, w)] == w;
  }

  /** Wherever ensure_policy stops on such a table it is still one, and once it deletes anything the table is
      exact already: so a run that is not cut short is exact, whatever was in the table. */
  lemma TrailKeepsShape(t: Table, p: Policy, u: Table)
    requires Shape(t, SubnetOf(p)) && OnTrail(t, p, u)
    ensures Shape(u, SubnetOf(p))
    ensures var done := ReplaceAll(t, Replacements(p));
            done.Some? && (Cleaned(done.value, p, u) ==> TableOk(u, p))
  {
    var rs, net := Replacements(p), SubnetOf(p);
    ReplacesAreExact(t, p);
    ReplacesKeepShape(t, net, rs);
    var full := ReplaceAll(t, rs).value;
    NothingStray(full, p);
    assert Cleaned(full, p, u) ==> u == full;
    if k :| 0 <= k <= |rs| && ReplaceAll(t, rs[..k]) == Some(u) {
      ReplacesKeepShape(t, net, rs[..k]);
    }
  }
}
