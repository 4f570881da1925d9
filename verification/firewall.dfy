/** NAT and forwarding rules as ordered iptables chains (intermux/system/firewall.py). */
module Firewall {
  import opened Basics
  import opened Subnets

  /** A rule argument: an address with prefix, read as a network, or any other word. */
  datatype Token = Word(text: string) | Cidr(net: Net)

  type Spec = seq<Token>
  type Chain = seq<Spec>

  /** The two chains InterMux writes: nat POSTROUTING and filter FORWARD. */
  datatype Chains = Chains(post: Chain, fwd: Chain)

  datatype TableName = Nat | Filtering

  datatype NatRule = NatRule(table: TableName, chain: string, spec: Spec, insert: bool)

  function Masquerade(net: Net, iface: string): Spec {
    [Word("-s"), Cidr(net), Word("-o"), Word(iface), Word("-j"), Word("MASQUERADE")]
  }

  function AcceptOut(net: Net): Spec {
    [Word("-s"), Cidr(net), Word("-j"), Word("ACCEPT")]
  }

  function AcceptBack(net: Net): Spec {
    [Word("-d"), Cidr(net), Word("-m"), Word("conntrack"), Word("--ctstate"), Word("RELATED,ESTABLISHED"),
     Word("-j"), Word("ACCEPT")]
  }

  /** The masquerade rule of a namespace and its two forward rules, in the order they are added. */
  function NatRules(net: Net, iface: string): seq<NatRule> {
    [NatRule(Nat, "POSTROUTING", Masquerade(net, iface), false),
     NatRule(Filtering, "FORWARD", AcceptOut(net), true),
     NatRule(Filtering, "FORWARD", AcceptBack(net), true)]
  }

  // -------------------------------------------------------------- chain commands

  /** iptables -C, then -I or -A when the rule is missing. */
  function EnsureRule(c: Chain, spec: Spec, insert: bool): Chain {
    if spec in c then c else if insert then [spec] + c else c + [spec]
  }

  /** iptables -D: the first matching rule goes; a missing rule is no error. */
  function DeleteFirst(c: Chain, spec: Spec): (r: Chain)
    ensures |r| <= |c|
    ensures forall x | x in r :: x in c
    ensures forall x | x in c && x != spec :: x in r
  {
    if c == [] then []
    else if c[0] == spec then c[1..]
    else [c[0]] + DeleteFirst(c[1..], spec)
  }

  function ApplyRule(cs: Chains, r: NatRule): Chains {
    if r.table.Nat? then cs.(post := EnsureRule(cs.post, r.spec, r.insert))
    else cs.(fwd := EnsureRule(cs.fwd, r.spec, r.insert))
  }

  predicate HasRule(cs: Chains, r: NatRule) { r.spec in if r.table.Nat? then cs.post else cs.fwd }

  function DropRule(cs: Chains, r: NatRule): Chains {
    if r.table.Nat? then cs.(post := DeleteFirst(cs.post, r.spec))
    else cs.(fwd := DeleteFirst(cs.fwd, r.spec))
  }

  /** ensure_nat when every command succeeds. */
  function EnsureNat(cs: Chains, net: Net, iface: string): Chains {
    var rs := NatRules(net, iface);
    ApplyRule(ApplyRule(ApplyRule(cs, rs[0]), rs[1]), rs[2])
  }

  /** remove_nat when every command succeeds. */
  function RemoveNat(cs: Chains, net: Net, iface: string): Chains {
    var rs := NatRules(net, iface);
    DropRule(DropRule(DropRule(cs, rs[0]), rs[1]), rs[2])
  }

  /** The chain holds the spec at most once. */
  ghost predicate Once(c: Chain, spec: Spec) {
    forall i, j | 0 <= i < j < |c| :: !(c[i] == spec && c[j] == spec)
  }

  // -------------------------------------------------------------- ensure and remove

  lemma SpecsDiffer(net: Net, iface: string)
    ensures AcceptOut(net) != AcceptBack(net)
    ensures Masquerade(net, iface) != AcceptOut(net) && Masquerade(net, iface) != AcceptBack(net)
  {
  }

  lemma EnsureNatIdempotent(cs: Chains, net: Net, iface: string)
    ensures var e := EnsureNat(cs, net, iface);
            EnsureNat(e, net, iface) == e
            && Masquerade(net, iface) in e.post && AcceptOut(net) in e.fwd && AcceptBack(net) in e.fwd
  {
  }

  lemma {:induction false} DeleteAppended(c: Chain, spec: Spec)
    requires spec !in c
    ensures DeleteFirst(c + [spec], spec) == c
  {
    if c == [] {
      assert [] + [spec] == [spec];
    } else {
      assert (c + [spec])[1..] == c[1..] + [spec];
      DeleteAppended(c[1..], spec);
    }
  }

  /** remove_nat undoes ensure_nat on chains that did not hold the rules, order included. */
  lemma RemoveUndoesEnsure(cs: Chains, net: Net, iface: string)
    requires Masquerade(net, iface) !in cs.post && AcceptOut(net) !in cs.fwd && AcceptBack(net) !in cs.fwd
    ensures RemoveNat(EnsureNat(cs, net, iface), net, iface) == cs
  {
    SpecsDiffer(net, iface);
    DeleteAppended(cs.post, Masquerade(net, iface));
    var one := [AcceptOut(net)] + cs.fwd;
    var two := [AcceptBack(net)] + one;
    assert two[1..] == one && one[1..] == cs.fwd;
    assert DeleteFirst(two, AcceptOut(net)) == [AcceptBack(net)] + DeleteFirst(one, AcceptOut(net));
    assert DeleteFirst(one, AcceptOut(net)) == cs.fwd;
    assert ([AcceptBack(net)] + cs.fwd)[1..] == cs.fwd;
  }

  /** The rules of a chain other than a given one, in order. */
  function Others(c: Chain, spec: Spec): Chain { Filter(c, (x: Spec) => x != spec) }

  /** Adding or deleting a rule never moves, drops or repeats any other rule. */
  lemma {:induction false} OthersUntouched(c: Chain, spec: Spec, insert: bool)
    ensures Others(EnsureRule(c, spec, insert), spec) == Others(c, spec)
    ensures Others(DeleteFirst(c, spec), spec) == Others(c, spec)
  {
    var p := (x: Spec) => x != spec;
    FilterConcat(c, [spec], p);
    FilterConcat([spec], c, p);
    assert Filter([spec], p) == [];
    DeleteKeeps(c, spec, p);
  }

  /** Deleting a rule a filter drops does not show in what the filter keeps. */
  lemma {:induction false} DeleteKeeps(c: Chain, spec: Spec, keep: Spec -> bool)
    requires !keep(spec)
    ensures Filter(DeleteFirst(c, spec), keep) == Filter(c, keep)
  {
    if c != [] && c[0] != spec {
      DeleteKeeps(c[1..], spec, keep);
      var rest := DeleteFirst(c[1..], spec);
      assert ([c[0]] + rest)[1..] == rest;
    }
  }

  lemma {:induction false} OnceDeleted(c: Chain, spec: Spec)
    requires Once(c, spec)
    ensures spec !in DeleteFirst(c, spec)
  {
    if c != [] && c[0] != spec {
      OnceDeleted(c[1..], spec);
    } else if c != [] {
      assert spec !in c[1..];
    }
  }

  lemma {:induction false} DeleteKeepsOnce(c: Chain, spec: Spec, x: Spec)
    requires Once(c, x)
    ensures Once(DeleteFirst(c, spec), x)
  {
    if c != [] && c[0] != spec {
      DeleteKeepsOnce(c[1..], spec, x);
      var rest := DeleteFirst(c[1..], spec);
      if c[0] == x {
        assert x !in c[1..];
      }
    }
  }

  lemma EnsureKeepsOnce(c: Chain, spec: Spec, insert: bool, x: Spec)
    requires Once(c, x)
    ensures Once(EnsureRule(c, spec, insert), x)
  {
  }

  // -------------------------------------------------------------- what the rules do to a packet

  /** A forwarded packet: its addresses, the interface it leaves by and the state of its connection. */
  datatype Forwarded = Forwarded(src: nat, dst: nat, out: string, state: string)

  function FirstComma(list: string): (k: nat)
    ensures k <= |list| && (k < |list| ==> list[k] == ',') && forall j | 0 <= j < k :: list[j] != ','
  {
    if list == [] || list[0] == ',' then 0 else 1 + FirstComma(list[1..])
  }

  predicate InList(word: string, list: string)
    decreases |list|
  {
    var k := FirstComma(list);
    word == list[..k] || (k < |list| && InList(word, list[k + 1..]))
  }

  /** The target of a rule for a packet all its matches take. Whatever begins with a word no rule of InterMux
      uses is read by `other`. */
  function Target(spec: Spec, p: Forwarded, other: (Spec, Forwarded) -> Option<string>): Option<string> {
    if |spec| < 2 then other(spec, p)
    else if spec[0] == Word("-s") && spec[1].Cidr? then
      if spec[1].net.len <= 32 && Holds(spec[1].net, p.src) then Target(spec[2..], p, other) else None
    else if spec[0] == Word("-d") && spec[1].Cidr? then
      if spec[1].net.len <= 32 && Holds(spec[1].net, p.dst) then Target(spec[2..], p, other) else None
    else if spec[0] == Word("-o") && spec[1].Word? then
      if p.out == spec[1].text then Target(spec[2..], p, other) else None
    else if spec[0] == Word("-m") && spec[1] == Word("conntrack") then Target(spec[2..], p, other)
    else if spec[0] == Word("--ctstate") && spec[1].Word? then
      if InList(p.state, spec[1].text) then Target(spec[2..], p, other) else None
    else if spec[0] == Word("-j") && spec[1].Word? then Some(spec[1].text)
    else other(spec, p)
  }

  /** What the first rule of a chain that takes the packet does with it. */
  function Verdict(c: Chain, p: Forwarded, other: (Spec, Forwarded) -> Option<string>): Option<string> {
    if c == [] then None
    else if Target(c[0], p, other).Some? then Target(c[0], p, other)
    else Verdict(c[1..], p, other)
  }

  lemma TwoListed(word: string, list: string, k: nat)
    requires k < |list| && list[k] == ',' && forall j | 0 <= j < |list| && j != k :: list[j] != ','
    ensures InList(word, list) <==> word == list[..k] || word == list[k + 1..]
  {
  }

  lemma StatesListed(word: string, list: string)
    requires list == "RELATED,ESTABLISHED"
    ensures InList(word, list) <==> word == "RELATED" || word == "ESTABLISHED"
  {
    assert |list| == 19 && list[7] == ',' && list[..7] == "RELATED" && list[8..] == "ESTABLISHED";
    TwoListed(word, list, 7);
  }

  lemma AddressTarget(net: Net, rest: Spec, p: Forwarded, other: (Spec, Forwarded) -> Option<string>)
    requires net.len <= 32
    ensures Target([Word("-s"), Cidr(net)] + rest, p, other)
            == if Holds(net, p.src) then Target(rest, p, other) else None
    ensures Target([Word("-d"), Cidr(net)] + rest, p, other)
            == if Holds(net, p.dst) then Target(rest, p, other) else None
  {
  }

  lemma JumpTarget(target: string, p: Forwarded, other: (Spec, Forwarded) -> Option<string>)
    ensures Target([Word("-j"), Word(target)], p, other) == Some(target)
  {
  }

  lemma OutTarget(name: string, target: string, p: Forwarded, other: (Spec, Forwarded) -> Option<string>)
    ensures Target([Word("-o"), Word(name), Word("-j"), Word(target)], p, other)
            == if p.out == name then Some(target) else None
  {
  }

  lemma StateTarget(list: string, target: string, p: Forwarded, other: (Spec, Forwarded) -> Option<string>)
    ensures Target([Word("--ctstate"), Word(list), Word("-j"), Word(target)], p, other)
            == if InList(p.state, list) then Some(target) else None
  {
  }

  lemma TrackTarget(rest: Spec, p: Forwarded, other: (Spec, Forwarded) -> Option<string>)
    ensures Target([Word("-m"), Word("conntrack")] + rest, p, other) == Target(rest, p, other)
  {
  }

  /** The three rules on their own: what leaves the subnet by the interface is masqueraded, what comes from the
      subnet is accepted, and of what goes to it only packets of known connections are. */
  lemma RuleTargets(net: Net, iface: string, p: Forwarded, other: (Spec, Forwarded) -> Option<string>)
    requires net.len <= 32
    ensures Target(Masquerade(net, iface), p, other)
            == if Holds(net, p.src) && p.out == iface then Some("MASQUERADE") else None
    ensures Target(AcceptOut(net), p, other) == if Holds(net, p.src) then Some("ACCEPT") else None
    ensures Target(AcceptBack(net), p, other)
            == if Holds(net, p.dst) && (p.state == "RELATED" || p.state == "ESTABLISHED") then Some("ACCEPT") else None
  {
    var out := [Word("-o"), Word(iface), Word("-j"), Word("MASQUERADE")];
    AddressTarget(net, out, p, other);
    OutTarget(iface, "MASQUERADE", p, other);
    assert Masquerade(net, iface) == [Word("-s"), Cidr(net)] + out;
    AddressTarget(net, [Word("-j"), Word("ACCEPT")], p, other);
    JumpTarget("ACCEPT", p, other);
    assert AcceptOut(net) == [Word("-s"), Cidr(net)] + [Word("-j"), Word("ACCEPT")];
    BackTarget(net, "RELATED,ESTABLISHED", p, other);
  }

  lemma KnownTarget(net: Net, list: string, p: Forwarded, other: (Spec, Forwarded) -> Option<string>)
    requires net.len <= 32
    ensures Target([Word("-d"), Cidr(net), Word("-m"), Word("conntrack"), Word("--ctstate"), Word(list), Word("-j"),
                    Word("ACCEPT")], p, other)
            == if Holds(net, p.dst) && InList(p.state, list) then Some("ACCEPT") else None
  {
    var states := [Word("--ctstate"), Word(list), Word("-j"), Word("ACCEPT")];
    StateTarget(list, "ACCEPT", p, other);
    TrackTarget(states, p, other);
    AddressTarget(net, [Word("-m"), Word("conntrack")] + states, p, other);
    assert [Word("-d"), Cidr(net), Word("-m"), Word("conntrack"), Word("--ctstate"), Word(list), Word("-j"),
            Word("ACCEPT")] == [Word("-d"), Cidr(net)] + ([Word("-m"), Word("conntrack")] + states);
  }

  lemma BackTarget(net: Net, list: string, p: Forwarded, other: (Spec, Forwarded) -> Option<string>)
    requires net.len <= 32 && list == "RELATED,ESTABLISHED"
    ensures Target(AcceptBack(net), p, other)
            == if Holds(net, p.dst) && (p.state == "RELATED" || p.state == "ESTABLISHED") then Some("ACCEPT") else None
  {
    StatesListed(p.state, list);
    KnownTarget(net, list, p, other);
  }

  lemma {:induction false} VerdictAppended(c: Chain, spec: Spec, p: Forwarded,
                                           other: (Spec, Forwarded) -> Option<string>)
    ensures Verdict(c + [spec], p, other)
            == if Verdict(c, p, other).Some? then Verdict(c, p, other) else Target(spec, p, other)
    ensures spec in c && Verdict(c, p, other) == None ==> Target(spec, p, other) == None
  {
    if c == [] {
      assert c + [spec] == [spec];
    } else {
      assert (c + [spec])[1..] == c[1..] + [spec];
      VerdictAppended(c[1..], spec, p, other);
    }
  }

  lemma VerdictInserted(c: Chain, spec: Spec, p: Forwarded, other: (Spec, Forwarded) -> Option<string>)
    ensures Verdict(EnsureRule(c, spec, true), p, other)
            == if spec !in c && Target(spec, p, other).Some? then Target(spec, p, other) else Verdict(c, p, other)
  {
  }

  /** After ensure_nat, on chains with any other rules. What no rule took before is masqueraded exactly when it
      leaves the subnet by the interface. A rule that was missing is put before everything else, so that packets
      from the subnet, and packets of known connections to it, are accepted whatever the other rules say; all
      other packets fare as before. */
  lemma NatMeaning(cs: Chains, net: Net, iface: string, p: Forwarded, other: (Spec, Forwarded) -> Option<string>)
    requires net.len <= 32
    ensures var e, was := EnsureNat(cs, net, iface), Verdict(cs.post, p, other);
            Verdict(e.post, p, other)
            == if was.Some? then was else if Holds(net, p.src) && p.out == iface then Some("MASQUERADE") else None
    ensures var e, was := EnsureNat(cs, net, iface), Verdict(cs.fwd, p, other);
            var known := p.state == "RELATED" || p.state == "ESTABLISHED";
            Verdict(e.fwd, p, other)
            == if AcceptOut(net) !in cs.fwd && Holds(net, p.src) then Some("ACCEPT")
               else if AcceptBack(net) !in cs.fwd && Holds(net, p.dst) && known then Some("ACCEPT")
               else was
  {
    RuleTargets(net, iface, p, other);
    SpecsDiffer(net, iface);
    VerdictAppended(cs.post, Masquerade(net, iface), p, other);
    VerdictInserted(cs.fwd, AcceptOut(net), p, other);
    VerdictInserted(EnsureRule(cs.fwd, AcceptOut(net), true), AcceptBack(net), p, other);
  }

  // -------------------------------------------------------------- listing and deleting by line

  /** _selects_pool on the arguments of a rule: a -s or -d, not negated, of a pool subnet. */
  predicate SelectsPool(tokens: seq<Token>) {
    exists i | 0 <= i < |tokens| - 1 :: Hit(tokens, i)
  }

  predicate Hit(tokens: seq<Token>, i: nat)
    requires i < |tokens| - 1
  {
    IsSelector(tokens[i]) && NamesPool(tokens[i + 1]) && !(i > 0 && tokens[i - 1] == Word("!"))
  }

  predicate IsSelector(t: Token) { t == Word("-s") || t == Word("-d") }

  /** Read strictly: an address with host bits set is no network. */
  predicate NamesPool(t: Token) {
    t.Cidr? && t.net.len <= 32 && t.net.base % Size(t.net.len) == 0 && IsPoolSubnet(t.net)
  }

  /** From word i the spec matches its source or destination against 10.200.n.0/24, n from 1 to 254. */
  ghost predicate SelectsNet(spec: Spec, i: int, n: nat) {
    && 0 <= i < |spec| - 1 && (spec[i] == Word("-s") || spec[i] == Word("-d")) && 1 <= n <= 254
    && spec[i + 1] == Cidr(Net(0x0AC8_0000 + 256 * n, 24)) && (i == 0 || spec[i - 1] != Word("!"))
  }

  lemma SelectsIff(spec: Spec)
    ensures SelectsPool(spec) <==> exists i, n: nat :: SelectsNet(spec, i, n)
  {
    if SelectsPool(spec) {
      var i :| 0 <= i < |spec| - 1 && Hit(spec, i);
      Sizes();
      PoolNumber(spec[i + 1].net);
      assert SelectsNet(spec, i, ThirdOctet(spec[i + 1].net.base));
    }
    if i, n: nat :| SelectsNet(spec, i, n) {
      Sizes();
      PoolNumber(spec[i + 1].net);
      assert Hit(spec, i);
    }
  }

  /** One line of `iptables -S`: `-A CHAIN spec`. */
  function Line(chain: string, spec: Spec): seq<Token> { [Word("-A"), Word(chain)] + spec }

  predicate ListsPool(line: seq<Token>) {
    |line| >= 2 && line[0] == Word("-A") && SelectsPool(line)
  }

  datatype DeleteCommand = DeleteRule(table: TableName, chain: Token, spec: Spec)

  /** The -D command a listed line turns into; None when the line is not an appended rule. */
  function DeleteArgs(line: seq<Token>): Option<DeleteCommand> {
    if |line| < 2 || line[0] != Word("-A") then None
    else
      var table := if line[1] == Word("PREROUTING") || line[1] == Word("POSTROUTING") then Nat else Filtering;
      Some(DeleteRule(table, line[1], line[2..]))
  }

  /** A listed line of either chain deletes the very rule it shows, in the table it came from. */
  lemma LineRoundTrip(spec: Spec)
    ensures DeleteArgs(Line("POSTROUTING", spec)) == Some(DeleteRule(Nat, Word("POSTROUTING"), spec))
    ensures DeleteArgs(Line("FORWARD", spec)) == Some(DeleteRule(Filtering, Word("FORWARD"), spec))
  {
  }

  /** The leading `-A CHAIN` changes nothing about which subnets the line selects. */
  lemma LineSelects(chain: string, spec: Spec)
    requires chain == "POSTROUTING" || chain == "FORWARD"
    ensures ListsPool(Line(chain, spec)) <==> SelectsPool(spec)
  {
    var line := Line(chain, spec);
    assert !IsSelector(line[0]) && !IsSelector(line[1]) && line[1] != Word("!") by {
      assert "-A"[1] == 'A' && "-s"[1] == 's' && "-d"[1] == 'd';
      assert chain[0] != '-' && chain[0] != '!' && "-s"[0] == '-' && "-d"[0] == '-' && "!"[0] == '!';
    }
    forall k: nat | k < |spec| - 1 ensures Hit(line, k + 2) <==> Hit(spec, k) {
      assert line[k + 2] == spec[k] && line[k + 3] == spec[k + 1];
      assert k > 0 ==> line[k + 1] == spec[k - 1];
    }
    if ListsPool(line) {
      var i: nat :| i < |line| - 1 && Hit(line, i);
      assert i >= 2 && Hit(spec, i - 2);
    }
    if SelectsPool(spec) {
      var i: nat :| i < |spec| - 1 && Hit(spec, i);
      assert Hit(line, i + 2);
    }
  }

  /** The three rules of a pool subnet are all found by the listing. */
  lemma OwnRulesSelected(n: nat, iface: string)
    requires 1 <= n <= 254
    ensures SelectsPool(Masquerade(PoolNet(n), iface)) && SelectsPool(AcceptOut(PoolNet(n)))
    ensures SelectsPool(AcceptBack(PoolNet(n)))
  {
    IndexRoundTrip(n);
    IndexOfInverse(PoolNet(n));
    assert NamesPool(Cidr(PoolNet(n)));
    assert Hit(Masquerade(PoolNet(n), iface), 0) && Hit(AcceptOut(PoolNet(n)), 0) && Hit(AcceptBack(PoolNet(n)), 0);
  }

  /** Deleting the rules of a list one -D each. */
  function DeleteEach(c: Chain, specs: seq<Spec>): Chain
    decreases |specs|
  {
    if specs == [] then c else DeleteEach(DeleteFirst(c, specs[0]), specs[1..])
  }

  /** One -D for every rule a filter drops, in listing order, leaves exactly the rules it keeps, in order. */
  lemma {:induction false} DeletingListedLeavesKept(c: Chain, keep: Spec -> bool, drop: Spec -> bool, kept: Chain)
    requires forall x :: drop(x) == !keep(x)
    requires forall x | x in kept :: keep(x)
    ensures DeleteEach(kept + c, Filter(c, drop)) == kept + Filter(c, keep)
  {
    if c == [] {
      assert kept + c == kept;
    } else if keep(c[0]) {
      assert kept + c == (kept + [c[0]]) + c[1..];
      DeletingListedLeavesKept(c[1..], keep, drop, kept + [c[0]]);
      assert (kept + [c[0]]) + Filter(c[1..], keep) == kept + ([c[0]] + Filter(c[1..], keep));
    } else {
      assert kept + c == kept + [c[0]] + c[1..];
      DeleteBehind(kept, c[0], c[1..]);
      DeleteEachStep(kept + c, c[0], Filter(c[1..], drop));
      DeletingListedLeavesKept(c[1..], keep, drop, kept);
    }
  }

  lemma DeleteEachStep(c: Chain, x: Spec, rest: seq<Spec>)
    ensures DeleteEach(c, [x] + rest) == DeleteEach(DeleteFirst(c, x), rest)
  {
  }

  lemma {:induction false} DeleteBehind(a: Chain, spec: Spec, b: Chain)
    requires spec !in a
    ensures DeleteFirst(a + [spec] + b, spec) == a + b
  {
    if a == [] {
      assert [] + [spec] + b == [spec] + b;
    } else {
      assert (a + [spec] + b)[1..] == a[1..] + [spec] + b;
      DeleteBehind(a[1..], spec, b);
    }
  }

  /** Deleting every listed line leaves exactly the rules that select no pool subnet. */
  lemma DeletingAllListed(c: Chain)
    ensures DeleteEach(c, Filter(c, (x: Spec) => SelectsPool(x))) == Filter(c, (x: Spec) => !SelectsPool(x))
  {
    DeletingListedLeavesKept(c, (x: Spec) => !SelectsPool(x), (x: Spec) => SelectsPool(x), []);
    assert [] + c == c;
  }
}
