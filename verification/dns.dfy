/** DNS of a namespace: the redirect rules and their meaning, the order of servers, and the hosts line of
    nsswitch.conf (intermux/system/netns.py, intermux/engine.py). */
module Dns {
  import opened Basics

  /** A nameserver as ipaddress reads it; Invalid is text it does not accept. */
  datatype Server = Inet(addr: nat) | Inet6(addr: nat) | Invalid

  datatype Transport = Udp | Tcp | OtherTransport

  datatype Target = Return | Dnat(to: nat)

  /** An OUTPUT rule of the namespace's nat table: destination (any when None), protocol, port. */
  datatype OutRule = OutRule(dst: Option<nat>, transport: Transport, dport: nat, target: Target)

  /** `-A POSTROUTING -s 127.0.0.0/8 -o veth -j SNAT --to-source addr`. */
  datatype SnatRule = SnatRule(out: string, source: nat)

  datatype NatTable = NatTable(output: seq<OutRule>, snat: SnatRule)

  datatype Datagram = Datagram(transport: Transport, dport: nat, src: nat, dst: nat)

  predicate Applies(r: OutRule, p: Datagram) {
    (r.dst == None || r.dst == Some(p.dst)) && r.transport == p.transport && r.dport == p.dport
  }

  /** netfilter: the first rule that applies decides; the chain's policy accepts. */
  function Output(rs: seq<OutRule>, p: Datagram): Datagram {
    if rs == [] then p
    else if Applies(rs[0], p) then (match rs[0].target case Return => p case Dnat(to) => p.(dst := to))
    else Output(rs[1..], p)
  }

  const LOOPBACK := 127
  function Postrouting(r: SnatRule, out: string, p: Datagram): Datagram {
    if p.src / 0x100_0000 == LOOPBACK && out == r.out then p.(src := r.source) else p
  }

  // -------------------------------------------------------------- building the rules

  /** The IPv4 servers without repetition, in list order. */
  function Inets(servers: seq<Server>): (r: seq<nat>)
    ensures NoDup(r)
    ensures forall a :: a in r <==> Inet(a) in servers
    decreases |servers|
  {
    if servers == [] then []
    else
      var n := |servers| - 1;
      var rest := Inets(servers[..n]);
      assert servers == servers[..n] + [servers[n]];
      if servers[n].Inet? && servers[n].addr !in rest then rest + [servers[n].addr] else rest
  }

  /** The block of rules for one transport. */
  function Block(addrs: seq<nat>, t: Transport): seq<OutRule>
    requires addrs != []
  {
    seq(|addrs|, i requires 0 <= i < |addrs| => OutRule(Some(addrs[i]), t, 53, Return))
    + [OutRule(None, t, 53, Dnat(addrs[0]))]
  }

  /** The address loop; None when one is invalid. */
  method CollectInets(servers: seq<Server>) returns (addrs: Option<seq<nat>>)
    ensures addrs == if Invalid in servers then None else Some(Inets(servers))
  {
    var found: seq<nat> := [];
    for i := 0 to |servers|
      invariant found == Inets(servers[..i]) && Invalid !in servers[..i]
    {
      assert servers[..i + 1][..i] == servers[..i];
      match servers[i]
      case Invalid => return None;
      case Inet6(_) =>
      case Inet(a) => if a !in found { found := found + [a]; }
    }
    assert servers[..|servers|] == servers;
    addrs := Some(found);
  }

  /** The rule loop for one transport. */
  method BlockRules(addrs: seq<nat>, t: Transport) returns (rules: seq<OutRule>)
    requires addrs != []
    ensures rules == Block(addrs, t)
  {
    rules := [];
    for i := 0 to |addrs|
      invariant rules == Block(addrs, t)[..i]
    {
      rules := rules + [OutRule(Some(addrs[i]), t, 53, Return)];
    }
    rules := rules + [OutRule(None, t, 53, Dnat(addrs[0]))];
  }

  /** dns_redirect_restore: None when an address is invalid or none is IPv4. */
  method RedirectRules(servers: seq<Server>, veth: string, addr: nat) returns (table: Option<NatTable>)
    ensures table == None <==> Invalid in servers || Inets(servers) == []
    ensures table.Some? ==>
              table.value == NatTable(Block(Inets(servers), Udp) + Block(Inets(servers), Tcp), SnatRule(veth, addr))
  {
    var addrs := CollectInets(servers);
    if addrs == None || addrs.value == [] { return None; }
    var udp := BlockRules(addrs.value, Udp);
    var tcp := BlockRules(addrs.value, Tcp);
    table := Some(NatTable(udp + tcp, SnatRule(veth, addr)));
  }

  // -------------------------------------------------------------- their meaning

  lemma {:induction false} Skip(rs: seq<OutRule>, more: seq<OutRule>, p: Datagram)
    requires forall r | r in rs :: !Applies(r, p)
    ensures Output(rs + more, p) == Output(more, p)
  {
    if rs == [] {
      assert rs + more == more;
    } else {
      assert (rs + more)[0] == rs[0] && (rs + more)[1..] == rs[1..] + more;
      Skip(rs[1..], more, p);
    }
  }

  /** One block, for a packet of its transport: a listed server is left, anything else goes to the first. */
  lemma {:induction false} BlockMeaning(addrs: seq<nat>, first: nat, t: Transport, more: seq<OutRule>, p: Datagram)
    requires p.transport == t && p.dport == 53
    ensures var rules := seq(|addrs|, i requires 0 <= i < |addrs| => OutRule(Some(addrs[i]), t, 53, Return))
                         + [OutRule(None, t, 53, Dnat(first))] + more;
            Output(rules, p) == if p.dst in addrs then p else p.(dst := first)
  {
    var passes := seq(|addrs|, i requires 0 <= i < |addrs| => OutRule(Some(addrs[i]), t, 53, Return));
    var rules := passes + [OutRule(None, t, 53, Dnat(first))] + more;
    if addrs == [] {
      assert rules[0] == OutRule(None, t, 53, Dnat(first));
    } else {
      var rest := seq(|addrs| - 1, i requires 0 <= i < |addrs| - 1 => OutRule(Some(addrs[1..][i]), t, 53, Return));
      assert rules[0] == OutRule(Some(addrs[0]), t, 53, Return);
      assert rules[1..] == rest + [OutRule(None, t, 53, Dnat(first))] + more;
      BlockMeaning(addrs[1..], first, t, more, p);
    }
  }

  /** For every packet: UDP or TCP to port 53 ends at a listed server (unchanged if it already was, else the
      first); everything else is left alone. */
  lemma RedirectMeaning(servers: seq<Server>, p: Datagram)
    requires Inets(servers) != []
    ensures var addrs := Inets(servers);
            Output(Block(addrs, Udp) + Block(addrs, Tcp), p)
            == if p.transport != OtherTransport && p.dport == 53 && p.dst !in addrs then p.(dst := addrs[0]) else p
  {
    var addrs := Inets(servers);
    if p.dport == 53 && p.transport == Udp {
      BlockMeaning(addrs, addrs[0], Udp, Block(addrs, Tcp), p);
    } else {
      Skip(Block(addrs, Udp), Block(addrs, Tcp), p);
      if p.dport == 53 && p.transport == Tcp {
        BlockMeaning(addrs, addrs[0], Tcp, [], p);
        assert Block(addrs, Tcp) + [] == Block(addrs, Tcp);
      } else {
        Skip(Block(addrs, Tcp), [], p);
        assert Block(addrs, Tcp) + [] == Block(addrs, Tcp);
      }
    }
  }

  /** A query to a loopback stub ends up at the first server with the namespace's own address as its source,
      so that it can leave through the veth. */
  lemma StubQueriesLeave(servers: seq<Server>, veth: string, addr: nat, p: Datagram)
    requires Inets(servers) != [] && p.transport == Udp && p.dport == 53
    requires p.dst / 0x100_0000 == LOOPBACK && p.src / 0x100_0000 == LOOPBACK
    requires forall a | a in Inets(servers) :: a / 0x100_0000 != LOOPBACK
    ensures var q := Output(Block(Inets(servers), Udp) + Block(Inets(servers), Tcp), p);
            Postrouting(SnatRule(veth, addr), veth, q) == p.(dst := Inets(servers)[0], src := addr)
  {
    RedirectMeaning(servers, p);
  }

  // -------------------------------------------------------------- order of servers

  /** order_dns_servers: the ones that answered first, both parts in list order. */
  function Ordered(servers: seq<Server>, answering: set<Server>): seq<Server> {
    Filter(servers, (s: Server) => s in answering) + Filter(servers, (s: Server) => s !in answering)
  }

  lemma {:induction false} SplitKeepsAll(servers: seq<Server>, answering: set<Server>)
    ensures multiset(Ordered(servers, answering)) == multiset(servers)
  {
    if servers != [] {
      SplitKeepsAll(servers[1..], answering);
      assert servers == [servers[0]] + servers[1..];
      var yes := (s: Server) => s in answering;
      var no := (s: Server) => s !in answering;
      assert multiset(servers) == multiset([servers[0]]) + multiset(servers[1..]);
      assert multiset(Ordered(servers, answering)) == multiset(Filter(servers, yes)) + multiset(Filter(servers, no));
      assert multiset(Ordered(servers[1..], answering))
             == multiset(Filter(servers[1..], yes)) + multiset(Filter(servers[1..], no));
    }
  }

  lemma PartsKept(servers: seq<Server>, answering: set<Server>)
    ensures var out := Ordered(servers, answering);
            && Filter(out, (s: Server) => s in answering) == Filter(servers, (s: Server) => s in answering)
            && Filter(out, (s: Server) => s !in answering) == Filter(servers, (s: Server) => s !in answering)
  {
    var yes := (s: Server) => s in answering;
    var no := (s: Server) => s !in answering;
    var a, b := Filter(servers, yes), Filter(servers, no);
    FilterConcat(a, b, yes);
    FilterConcat(a, b, no);
    FilterAll(a, yes);
    FilterNone(b, yes);
    FilterNone(a, no);
    FilterAll(b, no);
  }

  lemma AnsweringFirst(servers: seq<Server>, answering: set<Server>)
    ensures var out := Ordered(servers, answering);
            forall i, j | 0 <= i < j < |out| && out[j] in answering :: out[i] in answering
  {
    var a, b := Filter(servers, (s: Server) => s in answering), Filter(servers, (s: Server) => s !in answering);
    assert forall i | 0 <= i < |a| :: a[i] in a;
    assert forall i | 0 <= i < |b| :: b[i] in b;
  }

  lemma NoneOrAllAnswered(servers: seq<Server>, answering: set<Server>)
    requires (forall s | s in servers :: s !in answering) || (forall s | s in servers :: s in answering)
    ensures Ordered(servers, answering) == servers
  {
    if forall s | s in servers :: s !in answering {
      FilterNone(servers, (s: Server) => s in answering);
      FilterAll(servers, (s: Server) => s !in answering);
    } else {
      FilterNone(servers, (s: Server) => s !in answering);
      FilterAll(servers, (s: Server) => s in answering);
    }
  }

  /** A stable permutation: nothing is lost or repeated, no two servers of one kind swap, and those that
      answered come first. */
  lemma OrderIsStable(servers: seq<Server>, answering: set<Server>)
    ensures var out := Ordered(servers, answering);
            && multiset(out) == multiset(servers)
            && Filter(out, (s: Server) => s in answering) == Filter(servers, (s: Server) => s in answering)
            && Filter(out, (s: Server) => s !in answering) == Filter(servers, (s: Server) => s !in answering)
            && (forall i, j | 0 <= i < j < |out| && out[j] in answering :: out[i] in answering)
  {
    SplitKeepsAll(servers, answering);
    PartsKept(servers, answering);
    AnsweringFirst(servers, answering);
  }

  lemma {:induction false} InetsPrefix(servers: seq<Server>, more: seq<Server>)
    ensures Inets(servers) <= Inets(servers + more)
    decreases |more|
  {
    if more == [] {
      assert servers + more == servers;
    } else {
      var n := |more| - 1;
      InetsPrefix(servers, more[..n]);
      assert (servers + more)[..|servers + more| - 1] == servers + more[..n];
    }
  }

  /** After the reordering, stray queries go to a server that answered the probe, if an IPv4 one did. */
  lemma RedirectsToAnswering(servers: seq<Server>, answering: set<Server>)
    requires exists a :: Inet(a) in servers && Inet(a) in answering
    ensures Inets(Ordered(servers, answering)) != [] && Inet(Inets(Ordered(servers, answering))[0]) in answering
  {
    var front := Filter(servers, (s: Server) => s in answering);
    var a :| Inet(a) in servers && Inet(a) in answering;
    assert Inet(a) in front && a in Inets(front);
    InetsPrefix(front, Filter(servers, (s: Server) => s !in answering));
    assert Inets(front)[0] in Inets(front);
  }

  const PUBLIC := [Inet(0x01010101), Inet(0x09090909)]

  /** dict.fromkeys: first occurrences, in order. */
  function Uniques<T(==, !new)>(xs: seq<T>): (r: seq<T>)
    ensures forall x :: x in r <==> x in xs
    decreases |xs|
  {
    if xs == [] then []
    else
      var n := |xs| - 1;
      var rest := Uniques(xs[..n]);
      assert xs == xs[..n] + [xs[n]];
      if xs[n] in rest then rest else rest + [xs[n]]
  }

  /** namespace_dns_servers: IPv4 gateways of the interface, then the public resolvers. */
  function AutomaticServers(gateways: seq<Server>): seq<Server> {
    Uniques(Filter(gateways, (g: Server) => g.Inet?) + PUBLIC)
  }

  lemma {:induction false} InetsOfUniques(xs: seq<Server>)
    ensures Inets(Uniques(xs)) == Inets(xs)
    decreases |xs|
  {
    if xs != [] {
      var n := |xs| - 1;
      var rest := Uniques(xs[..n]);
      InetsOfUniques(xs[..n]);
      assert xs == xs[..n] + [xs[n]];
      assert (rest + [xs[n]])[..|rest|] == rest;
    }
  }

  lemma {:induction false} InetsOfGateways(gateways: seq<Server>)
    ensures Inets(Filter(gateways, (g: Server) => g.Inet?)) == Inets(gateways)
    decreases |gateways|
  {
    if gateways != [] {
      var n := |gateways| - 1;
      var front, back := gateways[..n], [gateways[n]];
      var inet := (g: Server) => g.Inet?;
      InetsOfGateways(front);
      assert gateways == front + back;
      FilterConcat(front, back, inet);
      assert Filter(back, inet) == if gateways[n].Inet? then back else [];
      var rest := Filter(front, inet);
      assert (rest + back)[..|rest|] == rest && rest + [] == rest;
    }
  }

  /** The automatic list always gives a redirect: to the interface's own IPv4 gateways first, in their order. */
  lemma AutomaticAlwaysRedirects(gateways: seq<Server>)
    ensures Invalid !in AutomaticServers(gateways) && Inets(AutomaticServers(gateways)) != []
    ensures Inets(gateways) <= Inets(AutomaticServers(gateways))
    ensures forall s :: s in AutomaticServers(gateways)
              <==> (s.Inet? && s in gateways) || s == Inet(0x0101_0101) || s == Inet(0x0909_0909)
  {
    var own := Filter(gateways, (g: Server) => g.Inet?);
    InetsOfUniques(own + PUBLIC);
    InetsPrefix(own, PUBLIC);
    InetsOfGateways(gateways);
    assert PUBLIC[0] in own + PUBLIC;
  }

  // -------------------------------------------------------------- nsswitch.conf

  /** A line of nsswitch.conf: the hosts database with its services and actions, or anything else. */
  datatype NssLine = Hosts(tokens: seq<string>) | OtherLine(text: string)

  predicate IsAction(t: string) { t != "" && t[0] == '[' }

  /** The tokens without `resolve` and the actions that belong to it; `skip` while behind a `resolve`. */
  function Unresolved(tokens: seq<string>, skip: bool): seq<string> {
    if tokens == [] then []
    else if IsAction(tokens[0]) then (if skip then [] else [tokens[0]]) + Unresolved(tokens[1..], skip)
    else if tokens[0] == "resolve" then Unresolved(tokens[1..], true)
    else [tokens[0]] + Unresolved(tokens[1..], false)
  }

  function HostsTokens(tokens: seq<string>): seq<string> {
    var kept := Unresolved(tokens, false);
    if "dns" in kept then kept else kept + ["dns"]
  }

  lemma {:induction false} UnresolvedAppend(a: seq<string>, t: string, skip: bool)
    ensures var s := SkipAfter(a, skip);
            Unresolved(a + [t], skip)
            == Unresolved(a, skip) + if t == "resolve" || (IsAction(t) && s) then [] else [t]
    ensures SkipAfter(a + [t], skip) == if IsAction(t) then SkipAfter(a, skip) else t == "resolve"
  {
    if a == [] {
      assert a + [t] == [t];
    } else {
      assert (a + [t])[0] == a[0] && (a + [t])[1..] == a[1..] + [t];
      UnresolvedAppend(a[1..], t, if IsAction(a[0]) then skip else a[0] == "resolve");
    }
  }

  /** Whether the last service of the list is `resolve`. */
  function SkipAfter(tokens: seq<string>, skip: bool): bool {
    if tokens == [] then skip
    else SkipAfter(tokens[1..], if IsAction(tokens[0]) then skip else tokens[0] == "resolve")
  }

  /** The token loop of namespace_nsswitch. */
  method RewriteTokens(tokens: seq<string>) returns (kept: seq<string>)
    ensures kept == HostsTokens(tokens)
  {
    kept := [];
    var skipAction := false;
    for i := 0 to |tokens|
      invariant kept == Unresolved(tokens[..i], false) && skipAction == SkipAfter(tokens[..i], false)
    {
      assert tokens[..i + 1] == tokens[..i] + [tokens[i]];
      UnresolvedAppend(tokens[..i], tokens[i], false);
      if IsAction(tokens[i]) {
        if !skipAction { kept := kept + [tokens[i]]; }
        continue;
      }
      skipAction := tokens[i] == "resolve";
      if !skipAction { kept := kept + [tokens[i]]; }
    }
    assert tokens[..|tokens|] == tokens;
    if "dns" !in kept { kept := kept + ["dns"]; }
  }

  lemma {:induction false} UnresolvedIsFixed(tokens: seq<string>, skip: bool)
    ensures "resolve" !in Unresolved(tokens, skip)
    ensures Unresolved(Unresolved(tokens, skip), false) == Unresolved(tokens, skip)
    ensures Filter(Unresolved(tokens, skip), (t: string) => !IsAction(t))
            == Filter(tokens, (t: string) => !IsAction(t) && t != "resolve")
  {
    if tokens != [] {
      var next := if IsAction(tokens[0]) then skip else tokens[0] == "resolve";
      UnresolvedIsFixed(tokens[1..], next);
      var u := Unresolved(tokens, skip);
      assert u == Unresolved(tokens[1..], next) || (u[0] == tokens[0] && u[1..] == Unresolved(tokens[1..], next));
    }
  }

  /** The rewritten hosts line never asks systemd-resolved, always has `dns`, keeps every other service in its
      order, and rewriting it again changes nothing. */
  lemma HostsRewritten(tokens: seq<string>)
    ensures var out := HostsTokens(tokens);
            "resolve" !in out && "dns" in out && HostsTokens(out) == out
    ensures var services := Filter(tokens, (t: string) => !IsAction(t) && t != "resolve");
            Filter(HostsTokens(tokens), (t: string) => !IsAction(t))
            == if "dns" in services then services else services + ["dns"]
  {
    UnresolvedIsFixed(tokens, false);
    var kept := Unresolved(tokens, false);
    var service := (t: string) => !IsAction(t);
    assert "dns" in kept <==> "dns" in Filter(kept, service);
    if "dns" !in kept {
      UnresolvedAppend(kept, "dns", false);
      FilterConcat(kept, ["dns"], service);
      assert Filter(["dns"], service) == ["dns"];
    }
  }

  /** The token belongs to a `resolve`: it is one, or stands behind one with nothing but actions in between. */
  ghost predicate OfResolve(tokens: seq<string>, i: int) {
    exists j :: j <= i && ResolvesUpTo(tokens, j, i)
  }

  ghost predicate ResolvesUpTo(tokens: seq<string>, j: int, i: int) {
    0 <= j <= i < |tokens| && tokens[j] == "resolve" && forall k | j < k <= i :: tokens[k] != "" && tokens[k][0] == '['
  }

  /** `at` are the positions of the tokens that belong to no `resolve`, in order. */
  ghost predicate Spared(tokens: seq<string>, at: seq<nat>) {
    && (forall i: nat :: i in at <==> i < |tokens| && !OfResolve(tokens, i))
    && (forall k | 0 <= k < |at| :: at[k] < |tokens|)
    && forall x, y | 0 <= x < y < |at| :: at[x] < at[y]
  }

  ghost function TokensAt(tokens: seq<string>, at: seq<nat>): seq<string>
    requires forall k | 0 <= k < |at| :: at[k] < |tokens|
  {
    seq(|at|, k requires 0 <= k < |at| => tokens[at[k]])
  }

  lemma OfResolveNext(tokens: seq<string>)
    requires tokens != []
    ensures var n := |tokens| - 1;
            OfResolve(tokens, n) <==>
              tokens[n] == "resolve" || (IsAction(tokens[n]) && n > 0 && OfResolve(tokens[..n], n - 1))
  {
    var n := |tokens| - 1;
    if tokens[n] == "resolve" {
      assert ResolvesUpTo(tokens, n, n);
    }
    if j :| j <= n && ResolvesUpTo(tokens, j, n) {
      assert j < n ==> ResolvesUpTo(tokens[..n], j, n - 1);
    }
    if n > 0 && IsAction(tokens[n]) && OfResolve(tokens[..n], n - 1) {
      var j :| j <= n - 1 && ResolvesUpTo(tokens[..n], j, n - 1);
      assert ResolvesUpTo(tokens, j, n) by {
        forall k | j < k <= n ensures tokens[k] != "" && tokens[k][0] == '[' {
          assert k < n ==> tokens[k] == tokens[..n][k];
        }
      }
    }
  }

  lemma OfResolvePrefix(tokens: seq<string>, n: nat, i: int)
    requires i < n <= |tokens|
    ensures OfResolve(tokens[..n], i) <==> OfResolve(tokens, i)
  {
    if j :| j <= i && ResolvesUpTo(tokens, j, i) {
      assert ResolvesUpTo(tokens[..n], j, i);
    }
    if j :| j <= i && ResolvesUpTo(tokens[..n], j, i) {
      assert ResolvesUpTo(tokens, j, i) by {
        forall k | j < k <= i ensures tokens[k] != "" && tokens[k][0] == '[' {
          assert tokens[k] == tokens[..n][k];
        }
      }
    }
  }

  /** What is kept of a hosts line: exactly the tokens that belong to no `resolve`, in their order. */
  lemma {:induction false} UnresolvedAre(tokens: seq<string>) returns (at: seq<nat>)
    ensures Spared(tokens, at) && Unresolved(tokens, false) == TokensAt(tokens, at)
    ensures SkipAfter(tokens, false) <==> tokens != [] && OfResolve(tokens, |tokens| - 1)
    decreases |tokens|
  {
    at := [];
    if tokens != [] {
      var n := |tokens| - 1;
      var before := UnresolvedAre(tokens[..n]);
      assert tokens == tokens[..n] + [tokens[n]];
      UnresolvedAppend(tokens[..n], tokens[n], false);
      OfResolveNext(tokens);
      at := SparedNext(tokens, before);
      assert TokensAt(tokens[..n], before) == TokensAt(tokens, before);
      if OfResolve(tokens, n) {
        assert at == before;
      } else {
        assert TokensAt(tokens, at) == TokensAt(tokens, before) + [tokens[n]];
      }
    }
  }

  lemma SparedNext(tokens: seq<string>, before: seq<nat>) returns (at: seq<nat>)
    requires tokens != [] && Spared(tokens[..|tokens| - 1], before)
    ensures Spared(tokens, at)
    ensures at == if OfResolve(tokens, |tokens| - 1) then before else before + [|tokens| - 1]
  {
    var n := |tokens| - 1;
    at := if OfResolve(tokens, n) then before else before + [n];
    forall i: nat ensures i in at <==> i < |tokens| && !OfResolve(tokens, i) {
      if i < n { OfResolvePrefix(tokens, n, i); }
      assert i in before <==> i < n && !OfResolve(tokens[..n], i);
    }
    forall x, y | 0 <= x < y < |at| ensures at[x] < at[y] {
      assert before == at[..|before|] && before[x] in before;
    }
  }

  const NSS_HEADER := "# Generated by InterMux from /etc/nsswitch.conf: name lookups use this namespace's DNS."

  function Rewritten(l: NssLine): NssLine { if l.Hosts? then Hosts(HostsTokens(l.tokens)) else l }

  function RewrittenUpTo(lines: seq<NssLine>, n: nat): seq<NssLine> {
    seq(|lines|, i requires 0 <= i < |lines| => if i < n then Rewritten(lines[i]) else lines[i])
  }

  lemma RewriteNext(lines: seq<NssLine>, i: nat)
    requires i < |lines|
    ensures RewrittenUpTo(lines, i)[i := Rewritten(lines[i])] == RewrittenUpTo(lines, i + 1)
    ensures Rewritten(lines[i]) == lines[i] ==> RewrittenUpTo(lines, i) == RewrittenUpTo(lines, i + 1)
  {
  }

  /** The line loop: None when nothing changed. */
  method NamespaceNsswitch(lines: seq<NssLine>) returns (out: Option<seq<NssLine>>)
    ensures out == None <==> forall i | 0 <= i < |lines| :: Rewritten(lines[i]) == lines[i]
    ensures out.Some? ==> out.value == [OtherLine(NSS_HEADER)]
                                       + seq(|lines|, i requires 0 <= i < |lines| => Rewritten(lines[i]))
  {
    var result := lines;
    var changed := false;
    for i := 0 to |lines|
      invariant result == RewrittenUpTo(lines, i)
      invariant changed <==> exists j | 0 <= j < i :: Rewritten(lines[j]) != lines[j]
    {
      RewriteNext(lines, i);
      if lines[i].OtherLine? { continue; }
      var kept := RewriteTokens(lines[i].tokens);
      if kept != lines[i].tokens {
        result := result[i := Hosts(kept)];
        changed := true;
      }
    }
    if !changed { return None; }
    assert RewrittenUpTo(lines, |lines|) == seq(|lines|, i requires 0 <= i < |lines| => Rewritten(lines[i]));
    out := Some([OtherLine(NSS_HEADER)] + result);
  }
}
