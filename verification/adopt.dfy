/** Routing a running application: slots, the nft marking table and its meaning
    (intermux/system/adopt.py). */
module Adopt {
  import opened Basics
  import opened Subnets
  import opened Routing

  const SLOT_MIN := 1
  const SLOT_MAX := 200
  const MARK_BASE := 0x100
  const SLOT_TABLE_BASE := 2000
  const SLOT_PRIORITY_BASE := 2000

  function Mark(slot: nat): nat { MARK_BASE + slot }
  function SlotTable(slot: nat): nat { SLOT_TABLE_BASE + slot }
  function SlotPriority(slot: nat): nat { SLOT_PRIORITY_BASE + slot }

  function Group(id: string): string { "intermux/adopt-" + id }

  predicate IsSlot(slot: nat) { SLOT_MIN <= slot <= SLOT_MAX }

  /** The lowest free slot; None exactly when all are taken. */
  method PickSlot(used: set<nat>) returns (r: Option<nat>)
    ensures match r
            case Some(slot) => IsSlot(slot) && slot !in used && forall s | SLOT_MIN <= s < slot :: s in used
            case None => forall s: nat | IsSlot(s) :: s in used
  {
    for slot := SLOT_MIN to SLOT_MAX + 1
      invariant forall s | SLOT_MIN <= s < slot :: s in used
    {
      if slot !in used { return Some(slot); }
    }
    return None;
  }

  /** Slots share no mark, table or priority with each other, nor a table or priority with a namespace. */
  lemma SlotsAreApart(a: nat, b: nat, n: nat)
    requires IsSlot(a) && IsSlot(b) && 1 <= n <= 254
    ensures a == b <==> Mark(a) == Mark(b)
    ensures a == b <==> SlotTable(a) == SlotTable(b)
    ensures a == b <==> SlotPriority(a) == SlotPriority(b)
    ensures SlotTable(a) != TABLE_BASE + n && SlotPriority(a) > PRIORITY_BASE + n && Mark(a) != 0
  {
  }

  // -------------------------------------------------------------- the nft table of a slot

  datatype IpFamily = V4 | V6
  datatype Proto = Tcp | Udp | OtherProto

  /** A locally sent packet: the InterMux group of its socket, headers, conntrack direction and marks. */
  datatype Packet = Packet(group: Option<string>, family: IpFamily, proto: Proto, dport: nat, src: nat, dst: nat,
                           toLoopback6: bool, original: bool, mark: nat, ctmark: nat)

  datatype Cond =
    | InGroup(group: string)
    | ProtoIn(protos: set<Proto>)
    | DPort(port: nat)
    | ToLoopback6
    | IsV6
    | Original

  datatype Action = Return | JumpReject | Reject | SetMarks(mark: nat)

  datatype NftRule = NftRule(conds: seq<Cond>, action: Action)

  /** The chains of `table inet intermux_adopt<slot>` that handle locally sent packets, and the interface
      its postrouting chain masquerades on. */
  datatype NftTable = NftTable(rejectChain: seq<NftRule>, output: seq<NftRule>, mark: nat, masquerade: string)

  function Script(slot: nat, group: string, iface: string): NftTable {
    NftTable(
      [NftRule([ProtoIn({Tcp})], Reject), NftRule([], Reject)],
      [NftRule([InGroup(group), ProtoIn({Tcp, Udp}), DPort(53)], Return),
       NftRule([InGroup(group), ToLoopback6], Return),
       NftRule([InGroup(group), IsV6], JumpReject),
       NftRule([InGroup(group), Original], SetMarks(Mark(slot)))],
      Mark(slot), iface)
  }

  predicate Matches(c: Cond, p: Packet) {
    match c
    case InGroup(g) => p.group == Some(g)
    case ProtoIn(ps) => p.proto in ps
    case DPort(port) => p.dport == port
    case ToLoopback6 => p.family == V6 && p.toLoopback6
    case IsV6 => p.family == V6
    case Original => p.original
  }

  predicate MatchesAll(cs: seq<Cond>, p: Packet) {
    forall c | c in cs :: Matches(c, p)
  }

  /** What a chain does to a packet: reject it, or pass it on (with its marks) to the next base chain. */
  datatype Outcome = Rejected | Passed(packet: Packet)

  predicate ChainRejects(rs: seq<NftRule>, p: Packet) {
    rs != [] && ((MatchesAll(rs[0].conds, p) && rs[0].action == Reject) || ChainRejects(rs[1..], p))
  }

  function RunChain(t: NftTable, rs: seq<NftRule>, p: Packet): Outcome
    decreases |rs|
  {
    if rs == [] then Passed(p)
    else if !MatchesAll(rs[0].conds, p) then RunChain(t, rs[1..], p)
    else
      match rs[0].action
      case Return => Passed(p)
      case Reject => Rejected
      case JumpReject => if ChainRejects(t.rejectChain, p) then Rejected else RunChain(t, rs[1..], p)
      case SetMarks(m) => RunChain(t, rs[1..], p.(mark := m, ctmark := m))
  }

  /** The output chains of all loaded tables, one after the other. */
  function RunTables(ts: seq<NftTable>, p: Packet): Outcome
    decreases |ts|
  {
    if ts == [] then Passed(p)
    else
      match RunChain(ts[0], ts[0].output, p)
      case Rejected => Rejected
      case Passed(q) => RunTables(ts[1..], q)
  }

  datatype Adopted = Adopted(slot: nat, group: string, iface: string)

  function TableFor(a: Adopted): NftTable { Script(a.slot, a.group, a.iface) }

  function TablesFor(live: seq<Adopted>): seq<NftTable> { seq(|live|, i requires 0 <= i < |live| => TableFor(live[i])) }

  predicate IsDns(p: Packet) { p.proto in {Tcp, Udp} && p.dport == 53 }

  /** What an adoption means for one packet of its own group. */
  function Treatment(a: Adopted, p: Packet): Outcome {
    if IsDns(p) then Passed(p)
    else if p.family == V6 then (if p.toLoopback6 then Passed(p) else Rejected)
    else if p.original then Passed(p.(mark := Mark(a.slot), ctmark := Mark(a.slot)))
    else Passed(p)
  }

  lemma OneTable(a: Adopted, p: Packet)
    ensures RunChain(TableFor(a), TableFor(a).output, p) ==
            if p.group == Some(a.group) then Treatment(a, p) else Passed(p)
  {
    var t := TableFor(a);
    var rs := t.output;
    MatchFacts(p, a.group);
    var s3 := [rs[3]];
    var s2 := [rs[2]] + s3;
    var s1 := [rs[1]] + s2;
    assert s3[1..] == [] && s2[1..] == s3 && s1[1..] == s2 && rs[1..] == s1;
    assert ChainRejects(t.rejectChain, p) by {
      assert t.rejectChain[1..][0] == t.rejectChain[1];
      assert MatchesAll(t.rejectChain[1].conds, p);
      assert ChainRejects(t.rejectChain[1..], p);
    }
    assert RunChain(t, s3, p)
           == Passed(if MatchesAll(rs[3].conds, p) then p.(mark := Mark(a.slot), ctmark := Mark(a.slot)) else p);
    assert RunChain(t, s2, p) == if MatchesAll(rs[2].conds, p) then Rejected else RunChain(t, s3, p);
    assert RunChain(t, s1, p) == if MatchesAll(rs[1].conds, p) then Passed(p) else RunChain(t, s2, p);
  }

  lemma MatchFacts(p: Packet, g: string)
    ensures MatchesAll([InGroup(g), ProtoIn({Tcp, Udp}), DPort(53)], p) <==> p.group == Some(g) && IsDns(p)
    ensures MatchesAll([InGroup(g), ToLoopback6], p) <==> p.group == Some(g) && p.family == V6 && p.toLoopback6
    ensures MatchesAll([InGroup(g), IsV6], p) <==> p.group == Some(g) && p.family == V6
    ensures MatchesAll([InGroup(g), Original], p) <==> p.group == Some(g) && p.original
  {
    assert InGroup(g) in [InGroup(g), ProtoIn({Tcp, Udp}), DPort(53)];
    assert ProtoIn({Tcp, Udp}) in [InGroup(g), ProtoIn({Tcp, Udp}), DPort(53)];
    assert DPort(53) in [InGroup(g), ProtoIn({Tcp, Udp}), DPort(53)];
    assert InGroup(g) in [InGroup(g), ToLoopback6] && ToLoopback6 in [InGroup(g), ToLoopback6];
    assert InGroup(g) in [InGroup(g), IsV6] && IsV6 in [InGroup(g), IsV6];
    assert InGroup(g) in [InGroup(g), Original] && Original in [InGroup(g), Original];
  }

  ghost predicate GroupsDiffer(live: seq<Adopted>) {
    forall i, j | 0 <= i < j < |live| :: live[i].group != live[j].group
  }

  /** With all tables loaded a packet meets its own group's treatment and nothing else; a packet of no
      adopted group passes unchanged. */
  lemma {:induction false} AllTables(live: seq<Adopted>, p: Packet)
    requires GroupsDiffer(live)
    ensures (forall a | a in live :: p.group != Some(a.group)) ==> RunTables(TablesFor(live), p) == Passed(p)
    ensures forall a | a in live && p.group == Some(a.group) :: RunTables(TablesFor(live), p) == Treatment(a, p)
    decreases |live|
  {
    if live != [] {
      var rest := live[1..];
      assert TablesFor(live)[0] == TableFor(live[0]);
      assert TablesFor(live)[1..] == TablesFor(rest);
      OneTable(live[0], p);
      AllTables(rest, p);
      if p.group == Some(live[0].group) && Treatment(live[0], p).Passed? {
        var q := Treatment(live[0], p).packet;
        assert q.group == p.group;
        assert forall a | a in rest :: q.group != Some(a.group);
        AllTables(rest, q);
      }
    }
  }

  // -------------------------------------------------------------- policy rules

  datatype IpRule =
    | FromNet(net: Net, table: nat, priority: nat)
    | FwMark(mark: nat, table: nat, priority: nat)
    | AnyPacket(table: nat, priority: nat)

  predicate Selects(r: IpRule, p: Packet) {
    match r
    case FromNet(net, _, _) => net.len <= 32 && Holds(net, p.src)
    case FwMark(m, _, _) => p.mark == m
    case AnyPacket(_, _) => true
  }

  function TableAt(tables: map<nat, Table>, n: nat): Table { if n in tables then tables[n] else [] }

  /** `ip rule`: rules in priority order, on to the next one when a table has no route. */
  function Route4(rules: seq<IpRule>, tables: map<nat, Table>, p: Packet): Exit
    decreases |rules|
  {
    if rules == [] then FallThrough
    else if Selects(rules[0], p) && ExitOf(TableAt(tables, rules[0].table), p.dst) != FallThrough
    then ExitOf(TableAt(tables, rules[0].table), p.dst)
    else Route4(rules[1..], tables, p)
  }

  /** A slot's table holds its interface default (if the link is up), the fallback and nothing else. */
  ghost predicate SlotSafe(t: Table, iface: string) {
    Fallback() in t
    && forall r | r in t ::
         r == Fallback() || (r.Unicast? && r.dst == Default && r.dev == iface && r.metric == ROUTE_METRIC)
  }

  const LOCAL_TABLE := 255

  /** Every rule consulted before the one of this slot is the local table's, a namespace's from-rule or of
      another mark: nothing else on the host uses a priority below it. */
  ghost predicate RulesBefore(rules: seq<IpRule>, k: nat, slot: nat) {
    k <= |rules| && forall i | 0 <= i < k ::
      match rules[i]
      case AnyPacket(t, _) => t == LOCAL_TABLE
      case FromNet(net, _, _) => net.len <= 32 && IsPoolSubnet(net)
      case FwMark(m, _, _) => m != Mark(slot)
  }

  ghost predicate SlotsDiffer(live: seq<Adopted>) {
    (forall a | a in live :: IsSlot(a.slot))
    && forall i, j | 0 <= i < j < |live| :: live[i].slot != live[j].slot
  }

  ghost predicate FromPool(addr: nat) {
    exists net: Net | net.len <= 32 && IsPoolSubnet(net) :: Holds(net, addr)
  }

  lemma {:induction false} RulesSkipped(rules: seq<IpRule>, k: nat, tables: map<nat, Table>, p: Packet)
    requires k <= |rules|
    requires forall i | 0 <= i < k ::
               !Selects(rules[i], p) || ExitOf(TableAt(tables, rules[i].table), p.dst) == FallThrough
    ensures Route4(rules, tables, p) == Route4(rules[k..], tables, p)
    decreases k
  {
    if k > 0 {
      RulesSkipped(rules[1..], k - 1, tables, p);
      assert rules[1..][k - 1..] == rules[k..];
    }
  }

  /** What becomes of a packet of an adopted group: DNS keeps the host's routing, IPv6 other than ::1 is
      rejected, and IPv4 of a connection the application opened leaves by the adopted interface or is
      unreachable. */
  ghost predicate Treated(live: seq<Adopted>, a: Adopted, rules: seq<IpRule>, tables: map<nat, Table>, p: Packet) {
    var out := RunTables(TablesFor(live), p);
    && (IsDns(p) ==> out == Passed(p) && out.packet.mark == 0)
    && (!IsDns(p) && p.family == V6 && !p.toLoopback6 ==> out == Rejected)
    && (!IsDns(p) && p.family == V4 && p.original ==>
          out.Passed? && out.packet.mark == Mark(a.slot) && out.packet.ctmark == Mark(a.slot)
          && Route4(rules, tables, out.packet) in {Via(a.iface), Unreachable})
    && (p.family == V4 && !p.original ==> out == Passed(p))
  }

  /** End to end, for any packet of an adopted group that is unmarked so far, not sent from a namespace
      subnet and not to a local address. */
  lemma AdoptionMeaning(live: seq<Adopted>, a: Adopted, rules: seq<IpRule>, k: nat, tables: map<nat, Table>, p: Packet)
    requires GroupsDiffer(live) && a in live && p.group == Some(a.group) && p.mark == 0
    requires k < |rules| && rules[k] == FwMark(Mark(a.slot), SlotTable(a.slot), SlotPriority(a.slot))
    requires RulesBefore(rules, k, a.slot)
    requires SlotSafe(TableAt(tables, SlotTable(a.slot)), a.iface)
    requires !FromPool(p.src) && ExitOf(TableAt(tables, LOCAL_TABLE), p.dst) == FallThrough
    ensures Treated(live, a, rules, tables, p)
  {
    AllTables(live, p);
    if !IsDns(p) && p.family == V4 && p.original {
      var q := Treatment(a, p).packet;
      forall i | 0 <= i < k
        ensures !Selects(rules[i], q) || ExitOf(TableAt(tables, rules[i].table), q.dst) == FallThrough
      {
      }
      RulesSkipped(rules, k, tables, q);
      var t := TableAt(tables, SlotTable(a.slot));
      assert rules[k..][0] == rules[k];
      assert Covers(Fallback(), q.dst);
      assert ExitOf(t, q.dst) != FallThrough;
    }
  }

  /** The prerouting chain: packets of a marked connection carry its mark again, so replies are checked
      and routed by the table the connection left through. */
  function Prerouting(t: NftTable, p: Packet): Packet { if p.ctmark == t.mark then p.(mark := t.mark) else p }

  function PreroutingAll(ts: seq<NftTable>, p: Packet): Packet
    decreases |ts|
  {
    if ts == [] then p else PreroutingAll(ts[1..], Prerouting(ts[0], p))
  }

  /** A reply of a connection marked by adoption `a` gets exactly that mark back, whatever else is loaded. */
  lemma {:induction false} RepliesRestored(live: seq<Adopted>, a: Adopted, p: Packet)
    requires SlotsDiffer(live) && IsSlot(a.slot) && p.ctmark == Mark(a.slot)
    ensures PreroutingAll(TablesFor(live), p) == if exists b ::
               b in live && b.slot == a.slot then p.(mark := Mark(a.slot)) else p
    decreases |live|
  {
    if live != [] {
      var rest := live[1..];
      assert TablesFor(live)[0] == TableFor(live[0]) && TablesFor(live)[1..] == TablesFor(rest);
      assert live[0] in live && forall b :: b in live <==> b == live[0] || b in rest;
      RepliesRestored(rest, a, Prerouting(TableFor(live[0]), p));
      assert Mark(live[0].slot) == Mark(a.slot) <==> live[0].slot == a.slot;
      var q := Prerouting(TableFor(live[0]), p);
      assert q.(mark := Mark(a.slot)) == p.(mark := Mark(a.slot));
    }
  }

  // -------------------------------------------------------------- slot tables

  /** table_ok: the loop over the listed routes. */
  method TableComplete(routes: Table, iface: string, gateway: Option<string>) returns (ok: bool)
    ensures ok <==> HasBoth(routes, iface, gateway)
  {
    var haveIface, haveFallback := false, false;
    for i := 0 to |routes|
      invariant haveIface <==> exists j | 0 <= j < i :: IsSlotDefault(routes[j], iface, gateway)
      invariant haveFallback <==> exists j | 0 <= j < i :: IsSlotFallback(routes[j])
    {
      var r := routes[i];
      if r.dst != Default { continue; }
      if r.Special? && r.kind == "unreachable" {
        if r.metric == 0 || r.metric == BLACKHOLE_METRIC { haveFallback := true; }
      } else if r.Unicast? && r.dev == iface && r.gateway == gateway && (r.metric == 0 || r.metric == ROUTE_METRIC) {
        haveIface := true;
      }
    }
    ok := haveIface && haveFallback;
  }

  /** The interface default with this gateway and an unreachable fallback are listed. */
  predicate HasBoth(routes: Table, iface: string, gateway: Option<string>) {
    (exists r :: r in routes && IsSlotDefault(r, iface, gateway)) && (exists r :: r in routes && IsSlotFallback(r))
  }

  predicate IsSlotDefault(r: Route, iface: string, gateway: Option<string>) {
    r.Unicast? && r.dst == Default && r.dev == iface && r.gateway == gateway
        && (r.metric == 0 || r.metric == ROUTE_METRIC)
  }

  predicate IsSlotFallback(r: Route) {
    r.Special? && r.kind == "unreachable" && r.dst == Default && (r.metric == 0 || r.metric == BLACKHOLE_METRIC)
  }

  function SlotPolicy(iface: string, gateway: Option<string>): Policy { Policy(Net(0, 0), iface, gateway, None) }

  /** Both IPv4 routes of a slot are there: nothing marked can leave the table. */
  ghost predicate SlotComplete(t: Table) {
    Fallback() in t && exists dev, gw :: Unicast(Default, dev, gw, ROUTE_METRIC) in t
  }

  /** Replaces of distinct keys that all go through: the written routes are there, and nothing new besides. */
  lemma ReplacedContents(t: Table, rs: seq<Route>)
    requires KeysDiffer(t) && KeysDiffer(rs)
    ensures ReplaceAll(t, rs).Some?
    ensures forall w | w in rs :: w in ReplaceAll(t, rs).value
    ensures forall x | x in ReplaceAll(t, rs).value :: x in rs || x in t
  {
    UniqueMeansFirst(t, rs);
    assert NoDup(t);
    ReplaceAllEffect(t, rs, Fallback());
    assert ReplaceAll(t, rs).Some?;
    forall x ensures (x in rs ==> x in ReplaceAll(t, rs).value)
                     && (x in ReplaceAll(t, rs).value ==> x in rs || x in t)
    {
      ReplaceAllEffect(t, rs, x);
    }
  }

  /** The two IPv4 route commands on a table that held nothing else complete it and keep it safe. */
  lemma RouteCommands(t: Table, iface: string, gateway: Option<string>)
    requires KeysDiffer(t) && (t == [] || SlotSafe(t, iface))
    ensures var done := ReplaceAll(t, Replacements(SlotPolicy(iface, gateway)));
            done.Some? && SlotSafe(done.value, iface) && SlotComplete(done.value)
  {
    var p := SlotPolicy(iface, gateway);
    var rs := Replacements(p);
    ReplacedContents(t, rs);
    assert forall x :: x in rs <==> x == IfaceRoute(p) || x == Fallback();
    assert IfaceRoute(p) in rs;
  }

  /** The same on a table only InterMux writes to, whatever an earlier adoption left there. */
  lemma OwnSlotSafe(t: Table, iface: string, gateway: Option<string>)
    requires Shape(t, None)
    ensures var done := ReplaceAll(t, Replacements(SlotPolicy(iface, gateway)));
            done.Some? && SlotSafe(done.value, iface) && SlotComplete(done.value)
  {
    var p := SlotPolicy(iface, gateway);
    ReplacesAreExact(t, p);
    ShapeNoDup(t, None);
    BothRoutesComplete(t, iface, gateway);
    assert Wanted(p)[0] == IfaceRoute(p) && Wanted(p)[1] == Fallback();
  }

  /** A healthy listing of such a table is a table that keeps to the interface. */
  lemma OwnListedSafe(t: Table, iface: string, gateway: Option<string>)
    requires Shape(t, None) && HasBoth(t, iface, gateway)
    ensures SlotSafe(t, iface)
  {
    var d :| d in t && IsSlotDefault(d, iface, gateway);
    var f :| f in t && IsSlotFallback(f);
    assert Own(d, None) && Own(f, None);
    forall r | r in t && r != Fallback() ensures r == d {
      assert Own(r, None) && SameKey(r, d);
      var i :| 0 <= i < |t| && t[i] == r;
      var j :| 0 <= j < |t| && t[j] == d;
      assert i == j;
    }
  }

  /** A slot's table keeps to its interface while its routes are rewritten. */
  lemma SlotStaysSafe(t: Table, iface: string, gateway: Option<string>, r: Route)
    requires SlotSafe(t, iface) && NoDup(t) && r in Replacements(SlotPolicy(iface, gateway)) && Replace(t, r).Some?
    ensures SlotSafe(Replace(t, r).value, iface)
  {
    var u := Replace(t, r).value;
    forall x | x in u ensures x == r || x in t {
      ReplaceEffect(t, r, x);
    }
    ReplaceEffect(t, r, Fallback());
    ReplaceEffect(t, r, r);
  }

  lemma DropKeepsSafe(t: Table, iface: string, dev: string)
    requires SlotSafe(t, iface)
    ensures SlotSafe(DropDevice(t, dev), iface)
  {
  }

  /** Writing either slot route never makes a complete table incomplete. */
  lemma ReplaceKeepsComplete(t: Table, iface: string, gateway: Option<string>, r: Route)
    requires NoDup(t) && r in Replacements(SlotPolicy(iface, gateway)) && Replace(t, r).Some?
    ensures NoDup(Replace(t, r).value)
    ensures SlotComplete(t) ==> SlotComplete(Replace(t, r).value)
  {
    var p := SlotPolicy(iface, gateway);
    assert r == IfaceRoute(p) || r == Fallback();
    ReplaceEffect(t, r, Fallback());
    if SlotComplete(t) {
      var dev, gw :| Unicast(Default, dev, gw, ROUTE_METRIC) in t;
      ReplaceEffect(t, r, Unicast(Default, dev, gw, ROUTE_METRIC));
      assert IfaceRoute(p) == Unicast(Default, iface, gateway, ROUTE_METRIC);
    }
  }

  /** When both commands go through, whatever the table held before, it is complete. */
  lemma BothRoutesComplete(t: Table, iface: string, gateway: Option<string>)
    requires NoDup(t) && ReplaceAll(t, Replacements(SlotPolicy(iface, gateway))).Some?
    ensures SlotComplete(ReplaceAll(t, Replacements(SlotPolicy(iface, gateway))).value)
    ensures HasBoth(ReplaceAll(t, Replacements(SlotPolicy(iface, gateway))).value, iface, gateway)
  {
    var p := SlotPolicy(iface, gateway);
    var rs := Replacements(p);
    ReplaceAllEffect(t, rs, IfaceRoute(p));
    ReplaceAllEffect(t, rs, Fallback());
    assert IfaceRoute(p) in rs && Fallback() in rs;
    assert IfaceRoute(p) == Unicast(Default, iface, gateway, ROUTE_METRIC);
    assert IsSlotDefault(IfaceRoute(p), iface, gateway) && IsSlotFallback(Fallback());
  }

  lemma UniqueMeansFirst(t: Table, rs: seq<Route>)
    requires KeysDiffer(t)
    ensures forall w | w in rs && w in t :: IsFirst(t, w)
  {
  }
}
