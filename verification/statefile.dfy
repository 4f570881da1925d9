/** The state file: from JSON to entries that are safe to use and back (intermux/state.py, intermux/dnsconf.py,
    intermux/system/shaping.py). */
module StateFile {
  import opened Basics
  import opened Subnets
  import Adopt

  /** A parsed JSON value; numbers are finite. */
  datatype Json =
    | Null | Bool(b: bool) | Int(i: int) | Float(r: real) | Str(s: string)
    | Arr(items: seq<Json>) | Obj(fields: map<string, Json>)

  /** Library functions: int() and ipaddress on text, str() of a value, os.path.basename. */
  datatype Lib = Lib(intOf: string -> Option<int>, text: Json -> string, basename: string -> string,
                     network: string -> Option<Net>, address: string -> Option<nat>, dotted: nat -> string)

  predicate Truthy(j: Json) {
    match j
    case Null => false
    case Bool(b) => b
    case Int(i) => i != 0
    case Float(r) => r != 0.0
    case Str(s) => s != ""
    case Arr(items) => items != []
    case Obj(fields) => fields != map[]
  }

  /** What is assumed of the library: str() of text is that text and of other values is not empty, that the
      empty text is no network, and that an address printed in dotted form reads back. */
  ghost predicate Reliable(lib: Lib) {
    && (forall s :: lib.text(Str(s)) == s)
    && (forall j: Json :: !j.Str? ==> lib.text(j) != "")
    && (forall a: nat | a < 0x1_0000_0000 :: lib.address(lib.dotted(a)) == Some(a))
    && (forall t :: lib.address(t).Some? ==> lib.address(t).value < 0x1_0000_0000)
    && lib.network("") == None
    && (forall t :: lib.network(t).Some? ==> WellFormed(lib.network(t).value))
  }

  /** Towards zero. */
  function Truncated(r: real): int { if r < 0.0 then -((-r).Floor) else r.Floor }

  /** int(value); None is a TypeError or ValueError. */
  function ToInt(lib: Lib, j: Json): Option<int> {
    match j
    case Bool(b) => Some(if b then 1 else 0)
    case Int(i) => Some(i)
    case Float(r) => Some(Truncated(r))
    case Str(s) => lib.intOf(s)
    case _ => None
  }

  function Get(o: map<string, Json>, k: string): Json { if k in o then o[k] else Null }

  /** `item.get(k) in (None, "")`. */
  predicate Missing(o: map<string, Json>, k: string) { Get(o, k) == Null || Get(o, k) == Str("") }

  /** str(item.get(k) or default). */
  function TextOr(lib: Lib, o: map<string, Json>, k: string, default: string): string {
    if Truthy(Get(o, k)) then lib.text(Get(o, k)) else default
  }

  // -------------------------------------------------------------- names

  predicate Lower(c: char) { 'a' <= c <= 'z' }
  predicate Upper(c: char) { 'A' <= c <= 'Z' }
  predicate Digit(c: char) { '0' <= c <= '9' }
  predicate HexChar(c: char) { Digit(c) || 'a' <= c <= 'f' }

  predicate IfaceName(s: string) {
    1 <= |s| <= 15 && s != "." && s != ".."
    && forall c | c in s :: Lower(c) || Upper(c) || Digit(c) || c in "_.:@-"
  }

  predicate NsName(s: string) { |s| == 11 && s[..3] == "ns_" && forall c | c in s[3..] :: HexChar(c) }

  predicate AdoptionId(s: string) { 8 <= |s| <= 32 && forall c | c in s :: HexChar(c) }

  /** valid_pool_subnet on text. */
  predicate PoolText(lib: Lib, s: string) {
    lib.network(s).Some? && lib.network(s).value.len <= 32 && IsPoolSubnet(lib.network(s).value)
  }

  // -------------------------------------------------------------- entries

  datatype BindingEntry = BindingEntry(iface: string, app: string, appName: string, namespace: string,
                                       subnet: string, table: int, priority: int, mode: string, log: string,
                                       created: string, pid: Option<int>)

  datatype AdoptionEntry = AdoptionEntry(id: string, iface: string, app: string, appName: string, slot: int,
                                         group: string, mark: int, table: int, priority: int, uid: int,
                                         pids: seq<int>, created: string)

  /** Mbit/s per direction; None is no limit. */
  datatype Limit = Limit(down: Option<real>, up: Option<real>)

  datatype Content = Content(version: int, subnets: map<string, string>, bindings: seq<BindingEntry>,
                             forward: Option<string>, adoptions: seq<AdoptionEntry>, dns: map<string, seq<string>>,
                             limits: map<string, Limit>)

  const MAX_TABLE := 0x7FFF_FFFF
  const MAX_PRIORITY := 32765

  // -------------------------------------------------------------- bindings

  function ReadPid(lib: Lib, j: Json): Option<int> {
    if j == Null || j.Bool? then None
    else match ToInt(lib, j)
         case None => None
         case Some(n) => if n <= 1 then None else Some(n)
  }

  predicate BindingKeysMissing(o: map<string, Json>) {
    Missing(o, "iface") || Missing(o, "app") || Missing(o, "namespace") || Missing(o, "subnet")
    || Missing(o, "table") || Missing(o, "priority")
  }

  /** _binding_from_dict. */
  function ReadBinding(lib: Lib, j: Json): Option<BindingEntry> {
    if !j.Obj? || BindingKeysMissing(j.fields) then None
    else
      var o := j.fields;
      var table, priority := ToInt(lib, Get(o, "table")), ToInt(lib, Get(o, "priority"));
      if table == None || priority == None then None
      else if !(Get(o, "subnet").Str? && PoolText(lib, Get(o, "subnet").s)) then None
      else if !(1 <= table.value <= MAX_TABLE && 1 <= priority.value <= MAX_PRIORITY) then None
      else if !IfaceName(lib.text(Get(o, "iface"))) then None
      else if !NsName(lib.text(Get(o, "namespace"))) then None
      else
        var app := lib.text(Get(o, "app"));
        Some(BindingEntry(lib.text(Get(o, "iface")), app, TextOr(lib, o, "app_name", lib.basename(app)),
                   lib.text(Get(o, "namespace")), lib.text(Get(o, "subnet")), table.value, priority.value,
                   TextOr(lib, o, "profile_mode", "default"), TextOr(lib, o, "log_path", ""),
                   TextOr(lib, o, "created_at", ""), ReadPid(lib, Get(o, "pid"))))
  }

  function OrNull(x: Option<int>): Json { if x == None then Null else Int(x.value) }

  const BINDING_KEYS := {"iface", "app", "app_name", "namespace", "subnet", "table", "priority", "profile_mode",
                         "log_path", "created_at", "pid"}

  function BindingField(b: BindingEntry, k: string): Json {
    if k == "iface" then Str(b.iface)
    else if k == "app" then Str(b.app)
    else if k == "app_name" then Str(b.appName)
    else if k == "namespace" then Str(b.namespace)
    else if k == "subnet" then Str(b.subnet)
    else if k == "table" then Int(b.table)
    else if k == "priority" then Int(b.priority)
    else if k == "profile_mode" then Str(b.mode)
    else if k == "log_path" then Str(b.log)
    else if k == "created_at" then Str(b.created)
    else OrNull(b.pid)
  }

  function PrintBinding(b: BindingEntry): Json { Obj(map k | k in BINDING_KEYS :: BindingField(b, k)) }

  /** The bindings a state file can yield. */
  ghost predicate ValidBinding(lib: Lib, b: BindingEntry) {
    && IfaceName(b.iface) && NsName(b.namespace) && PoolText(lib, b.subnet) && b.app != ""
    && 1 <= b.table <= MAX_TABLE && 1 <= b.priority <= MAX_PRIORITY
    && (b.pid.Some? ==> b.pid.value > 1) && b.mode != "" && (b.appName == "" ==> lib.basename(b.app) == "")
  }

  lemma ReadBindingValid(lib: Lib, j: Json)
    requires Reliable(lib)
    ensures ReadBinding(lib, j).Some? ==> ValidBinding(lib, ReadBinding(lib, j).value)
  {
  }

  /** The fields an object gives for a binding. */
  ghost predicate HoldsBinding(o: map<string, Json>, b: BindingEntry) {
    && Get(o, "iface") == Str(b.iface) && Get(o, "app") == Str(b.app) && Get(o, "app_name") == Str(b.appName)
    && Get(o, "namespace") == Str(b.namespace) && Get(o, "subnet") == Str(b.subnet)
    && Get(o, "table") == Int(b.table) && Get(o, "priority") == Int(b.priority)
    && Get(o, "profile_mode") == Str(b.mode) && Get(o, "log_path") == Str(b.log)
    && Get(o, "created_at") == Str(b.created) && Get(o, "pid") == OrNull(b.pid)
  }

  lemma PrintedRequired(b: BindingEntry)
    ensures var o := PrintBinding(b).fields;
            Get(o, "iface") == Str(b.iface) && Get(o, "app") == Str(b.app) && Get(o, "namespace") == Str(b.namespace)
            && Get(o, "subnet") == Str(b.subnet) && Get(o, "table") == Int(b.table)
                && Get(o, "priority") == Int(b.priority)
  {
  }

  lemma PrintedFields(b: BindingEntry)
    ensures HoldsBinding(PrintBinding(b).fields, b)
  {
    PrintedRequired(b);
  }

  lemma NothingMissing(lib: Lib, o: map<string, Json>, b: BindingEntry)
    requires Reliable(lib) && ValidBinding(lib, b) && HoldsBinding(o, b)
    ensures !BindingKeysMissing(o)
  {
  }

  lemma OptionalTexts(lib: Lib, o: map<string, Json>, b: BindingEntry)
    requires Reliable(lib) && ValidBinding(lib, b) && HoldsBinding(o, b)
    ensures TextOr(lib, o, "app_name", lib.basename(b.app)) == b.appName
    ensures TextOr(lib, o, "profile_mode", "default") == b.mode
    ensures TextOr(lib, o, "log_path", "") == b.log && TextOr(lib, o, "created_at", "") == b.created
  {
  }

  lemma HeldBindingReads(lib: Lib, o: map<string, Json>, b: BindingEntry)
    requires Reliable(lib) && ValidBinding(lib, b) && HoldsBinding(o, b)
    ensures ReadBinding(lib, Obj(o)) == Some(b)
  {
    NothingMissing(lib, o, b);
    OptionalTexts(lib, o, b);
  }

  lemma PrintedBindingReads(lib: Lib, b: BindingEntry)
    requires Reliable(lib) && ValidBinding(lib, b)
    ensures ReadBinding(lib, PrintBinding(b)) == Some(b)
  {
    PrintedFields(b);
    HeldBindingReads(lib, PrintBinding(b).fields, b);
  }

  // -------------------------------------------------------------- adoptions

  function ReadInts(lib: Lib, items: seq<Json>): Option<seq<int>> {
    if items == [] then Some([])
    else
      var first, rest := ToInt(lib, items[0]), ReadInts(lib, items[1..]);
      if first == None || rest == None then None else Some([first.value] + rest.value)
  }

  function ReadPids(lib: Lib, j: Json): Option<seq<int>> {
    if !Truthy(j) then Some([]) else if j.Arr? then ReadInts(lib, j.items) else None
  }

  predicate AdoptionKeysMissing(o: map<string, Json>) {
    Missing(o, "id") || Missing(o, "iface") || Missing(o, "app") || Missing(o, "slot") || Missing(o, "group")
    || Missing(o, "mark") || Missing(o, "table") || Missing(o, "priority") || Missing(o, "uid")
  }

  /** The integer fields: slot, mark, table, priority and uid, which may not be a boolean. */
  function ReadNumbers(lib: Lib, o: map<string, Json>): Option<(int, int, int, int, int)> {
    var s, m, t := ToInt(lib, Get(o, "slot")), ToInt(lib, Get(o, "mark")), ToInt(lib, Get(o, "table"));
    var p, u := ToInt(lib, Get(o, "priority")), if Get(o, "uid").Bool? then None else ToInt(lib, Get(o, "uid"));
    if s == None || m == None || t == None || p == None || u == None then None
    else Some((s.value, m.value, t.value, p.value, u.value))
  }

  /** _adoption_from_dict. */
  function ReadAdoption(lib: Lib, j: Json): Option<AdoptionEntry> {
    if !j.Obj? || AdoptionKeysMissing(j.fields) then None
    else
      var o := j.fields;
      var id, iface, app := lib.text(Get(o, "id")), lib.text(Get(o, "iface")), lib.text(Get(o, "app"));
      var n, pids := ReadNumbers(lib, o), ReadPids(lib, Get(o, "pids"));
      if !AdoptionId(id) || n == None || pids == None then None
      else if lib.text(Get(o, "group")) != Adopt.Group(id) || n.value.0 < 0 || !Adopt.IsSlot(n.value.0)
              || !IfaceName(iface) then None
      else Some(AdoptionEntry(id, iface, app, TextOr(lib, o, "app_name", lib.basename(app)), n.value.0, Adopt.Group(id),
                        n.value.1, n.value.2, n.value.3, n.value.4, pids.value, TextOr(lib, o, "created_at", "")))
  }

  /** The adoptions a state file can yield: group, slot and interface are what InterMux itself would write. */
  ghost predicate ValidAdoption(lib: Lib, a: AdoptionEntry) {
    && AdoptionId(a.id) && a.group == Adopt.Group(a.id) && a.slot >= 0 && Adopt.IsSlot(a.slot)
    && IfaceName(a.iface) && a.app != ""
    && (a.appName == "" ==> lib.basename(a.app) == "")
  }

  function PrintInts(xs: seq<int>): seq<Json> { seq(|xs|, i requires 0 <= i < |xs| => Int(xs[i])) }

  const ADOPTION_KEYS := {"id", "iface", "app", "app_name", "slot", "group", "mark", "table", "priority", "uid", "pids",
                          "created_at"}

  function AdoptionField(a: AdoptionEntry, k: string): Json {
    if k == "id" then Str(a.id)
    else if k == "iface" then Str(a.iface)
    else if k == "app" then Str(a.app)
    else if k == "app_name" then Str(a.appName)
    else if k == "slot" then Int(a.slot)
    else if k == "group" then Str(a.group)
    else if k == "mark" then Int(a.mark)
    else if k == "table" then Int(a.table)
    else if k == "priority" then Int(a.priority)
    else if k == "uid" then Int(a.uid)
    else if k == "pids" then Arr(PrintInts(a.pids))
    else Str(a.created)
  }

  function PrintAdoption(a: AdoptionEntry): Json { Obj(map k | k in ADOPTION_KEYS :: AdoptionField(a, k)) }

  lemma ReadAdoptionValid(lib: Lib, j: Json)
    requires Reliable(lib)
    ensures ReadAdoption(lib, j).Some? ==> ValidAdoption(lib, ReadAdoption(lib, j).value)
  {
  }

  lemma {:induction false} PrintedInts(lib: Lib, xs: seq<int>)
    ensures ReadInts(lib, PrintInts(xs)) == Some(xs)
  {
    if xs != [] {
      PrintedInts(lib, xs[1..]);
      assert PrintInts(xs)[1..] == PrintInts(xs[1..]);
      assert [xs[0]] + xs[1..] == xs;
    }
  }

  lemma PrintedPids(lib: Lib, xs: seq<int>)
    ensures ReadPids(lib, Arr(PrintInts(xs))) == Some(xs)
  {
    PrintedInts(lib, xs);
    if xs == [] {
      assert PrintInts(xs) == [];
    }
  }

  ghost predicate HoldsTexts(o: map<string, Json>, a: AdoptionEntry) {
    && Get(o, "id") == Str(a.id) && Get(o, "iface") == Str(a.iface) && Get(o, "app") == Str(a.app)
    && Get(o, "app_name") == Str(a.appName) && Get(o, "group") == Str(a.group) && Get(o, "created_at") == Str(a.created)
  }

  ghost predicate HoldsNumbers(o: map<string, Json>, a: AdoptionEntry) {
    && Get(o, "slot") == Int(a.slot) && Get(o, "mark") == Int(a.mark) && Get(o, "table") == Int(a.table)
    && Get(o, "priority") == Int(a.priority) && Get(o, "uid") == Int(a.uid)
    && Get(o, "pids") == Arr(PrintInts(a.pids))
  }

  lemma PrintedTexts(a: AdoptionEntry)
    ensures HoldsTexts(PrintAdoption(a).fields, a)
  {
  }

  lemma PrintedNumbers(a: AdoptionEntry)
    ensures HoldsNumbers(PrintAdoption(a).fields, a)
  {
  }

  lemma HeldAdoptionReads(lib: Lib, o: map<string, Json>, a: AdoptionEntry)
    requires Reliable(lib) && ValidAdoption(lib, a) && HoldsTexts(o, a) && HoldsNumbers(o, a)
    ensures ReadAdoption(lib, Obj(o)) == Some(a)
  {
    PrintedPids(lib, a.pids);
    assert ReadNumbers(lib, o) == Some((a.slot, a.mark, a.table, a.priority, a.uid));
  }

  lemma PrintedAdoptionReads(lib: Lib, a: AdoptionEntry)
    requires Reliable(lib) && ValidAdoption(lib, a)
    ensures ReadAdoption(lib, PrintAdoption(a)) == Some(a)
  {
    PrintedTexts(a);
    PrintedNumbers(a);
    HeldAdoptionReads(lib, PrintAdoption(a).fields, a);
  }

  // -------------------------------------------------------------- DNS servers

  /** A usable upstream resolver: not loopback, link-local, multicast, reserved or unspecified. */
  predicate Usable(a: nat) {
    a / 0x100_0000 != 127 && a / 0x1_0000 != 0xA9FE && a / 0x1000_0000 < 14 && a != 0
  }

  /** Outside 127.0.0.0/8, 169.254.0.0/16, 224.0.0.0/4 and 240.0.0.0/4, and not 0.0.0.0. */
  lemma UsableIff(a: nat)
    requires a < 0x1_0000_0000
    ensures Size(8) == 0x100_0000 && Size(4) == 0x1000_0000 && Size(16) == 0x1_0000
    ensures Usable(a) <==> !(|| Holds(Net(0x7F00_0000, 8), a) || Holds(Net(0xA9FE_0000, 16), a)
                             || Holds(Net(0xE000_0000, 4), a) || Holds(Net(0xF000_0000, 4), a) || a == 0)
  {
    Sizes();
    assert Size(12) == 16 * Size(16) && Size(8) == 16 * Size(12) && Size(4) == 16 * Size(8);
  }

  predicate ValidServer(lib: Lib, j: Json) { j.Str? && lib.address(j.s).Some? && Usable(lib.address(j.s).value) }

  /** The canonical forms of the items without repetition; None when one is not usable. */
  function Canonical(lib: Lib, items: seq<Json>): Option<seq<string>>
    decreases |items|
  {
    if items == [] then Some([])
    else
      var n := |items| - 1;
      var rest := Canonical(lib, items[..n]);
      if rest == None || !ValidServer(lib, items[n]) then None
      else
        var c := lib.dotted(lib.address(items[n].s).value);
        Some(if c in rest.value then rest.value else rest.value + [c])
  }

  function CheckServers(lib: Lib, j: Json): Option<seq<string>> {
    if !j.Arr? || !(1 <= |j.items| <= 4) then None else Canonical(lib, j.items)
  }

  lemma {:induction false} CanonicalFails(lib: Lib, items: seq<Json>, i: nat)
    requires i < |items| && !ValidServer(lib, items[i])
    ensures Canonical(lib, items) == None
    decreases |items|
  {
    if i < |items| - 1 {
      CanonicalFails(lib, items[..|items| - 1], i);
    }
  }

  /** One to four usable servers in canonical form, no two the same. */
  ghost predicate ValidServers(lib: Lib, ss: seq<string>) {
    1 <= |ss| <= 4 && NoDup(ss) && forall s | s in ss :: CanonicalServer(lib, s)
  }

  ghost predicate CanonicalServer(lib: Lib, s: string) {
    exists a: nat | a < 0x1_0000_0000 :: s == lib.dotted(a) && Usable(a)
  }

  function PrintServers(ss: seq<string>): Json { Arr(seq(|ss|, i requires 0 <= i < |ss| => Str(ss[i]))) }

  lemma {:induction false} CanonicalValid(lib: Lib, items: seq<Json>)
    requires Reliable(lib)
    ensures Canonical(lib, items).Some? ==>
              var ss := Canonical(lib, items).value;
              |ss| <= |items| && (items != [] ==> ss != []) && NoDup(ss)
              && forall s | s in ss :: CanonicalServer(lib, s)
    decreases |items|
  {
    if items != [] {
      var n := |items| - 1;
      CanonicalValid(lib, items[..n]);
      if Canonical(lib, items).Some? {
        var a := lib.address(items[n].s).value;
        assert CanonicalServer(lib, lib.dotted(a));
      }
    }
  }

  /** The address text check_servers makes of an item. */
  function CanonicalOf(lib: Lib, item: Json): string
    requires ValidServer(lib, item)
  {
    lib.dotted(lib.address(item.s).value)
  }

  /** The text is the canonical address of a usable item. */
  predicate GivenBy(lib: Lib, items: seq<Json>, s: string) {
    exists i :: 0 <= i < |items| && ValidServer(lib, items[i]) && s == CanonicalOf(lib, items[i])
  }

  lemma GivenByLast(lib: Lib, items: seq<Json>, s: string)
    requires items != []
    ensures var n := |items| - 1;
            GivenBy(lib, items, s) <==>
              GivenBy(lib, items[..n], s) || (ValidServer(lib, items[n]) && s == CanonicalOf(lib, items[n]))
  {
    var n := |items| - 1;
    if i :| 0 <= i < n && ValidServer(lib, items[i]) && s == CanonicalOf(lib, items[i]) {
      assert items[..n][i] == items[i];
    }
  }

  /** The items are refused as a whole when one is not usable; else each gives its address. */
  lemma {:induction false} CanonicalElements(lib: Lib, items: seq<Json>)
    ensures Canonical(lib, items) == None <==> exists i :: 0 <= i < |items| && !ValidServer(lib, items[i])
    ensures Canonical(lib, items).Some? ==>
              forall s :: s in Canonical(lib, items).value <==> GivenBy(lib, items, s)
    decreases |items|
  {
    if items != [] {
      var n := |items| - 1;
      CanonicalElements(lib, items[..n]);
      forall s ensures GivenBy(lib, items, s) <==>
          GivenBy(lib, items[..n], s) || (ValidServer(lib, items[n]) && s == CanonicalOf(lib, items[n])) {
        GivenByLast(lib, items, s);
      }
    }
  }

  /** check_servers: refused when the count or one item is wrong, else exactly the items' addresses in canonical
      form, none twice. */
  method ReadServers(lib: Lib, j: Json) returns (r: Option<seq<string>>)
    ensures r == CheckServers(lib, j)
    ensures r == None <==>
            !j.Arr? || !(1 <= |j.items| <= 4) || exists i :: 0 <= i < |j.items| && !ValidServer(lib, j.items[i])
    ensures r.Some? ==> forall s :: s in r.value <==> GivenBy(lib, j.items, s)
    ensures Reliable(lib) && r.Some? ==> ValidServers(lib, r.value)
  {
    if !j.Arr? || !(1 <= |j.items| <= 4) { return None; }
    r := ReadItems(lib, j.items);
    CanonicalElements(lib, j.items);
    if Reliable(lib) {
      CanonicalValid(lib, j.items);
    }
  }

  method ReadItems(lib: Lib, items: seq<Json>) returns (r: Option<seq<string>>)
    ensures r == Canonical(lib, items)
  {
    var servers: seq<string> := [];
    for i := 0 to |items|
      invariant Canonical(lib, items[..i]) == Some(servers)
    {
      assert items[..i + 1][..i] == items[..i];
      if !ValidServer(lib, items[i]) {
        CanonicalFails(lib, items, i);
        return None;
      }
      var canonical := lib.dotted(lib.address(items[i].s).value);
      if canonical !in servers {
        servers := servers + [canonical];
      }
    }
    assert items[..|items|] == items;
    r := Some(servers);
  }

  lemma {:induction false} PrintedServersRead(lib: Lib, ss: seq<string>)
    requires Reliable(lib) && NoDup(ss) && forall s | s in ss :: CanonicalServer(lib, s)
    ensures Canonical(lib, PrintServers(ss).items) == Some(ss)
    decreases |ss|
  {
    if ss != [] {
      var n := |ss| - 1;
      PrintedServersRead(lib, ss[..n]);
      assert PrintServers(ss).items[..n] == PrintServers(ss[..n]).items;
      assert ss == ss[..n] + [ss[n]];
      assert CanonicalServer(lib, ss[n]);
    }
  }

  // -------------------------------------------------------------- limits

  const MIN_MBIT := 0.064
  const MAX_MBIT := 100000.0

  datatype Mbit = BadMbit | Mbit(value: Option<real>)

  /** check_mbit. */
  function CheckMbit(j: Json): Mbit {
    match j
    case Null => Mbit(None)
    case Int(i) => if MIN_MBIT <= i as real <= MAX_MBIT then Mbit(Some(i as real)) else BadMbit
    case Float(r) => if MIN_MBIT <= r <= MAX_MBIT then Mbit(Some(r)) else BadMbit
    case _ => BadMbit
  }

  function ReadLimit(j: Json): Option<Limit> {
    if !j.Obj? then None
    else
      var down, up := CheckMbit(Get(j.fields, "down")), CheckMbit(Get(j.fields, "up"));
      if down == BadMbit || up == BadMbit || (down.value == None && up.value == None) then None
      else Some(Limit(down.value, up.value))
  }

  ghost predicate InRange(x: Option<real>) { x.Some? ==> MIN_MBIT <= x.value <= MAX_MBIT }

  ghost predicate ValidLimit(l: Limit) { InRange(l.down) && InRange(l.up) && (l.down.Some? || l.up.Some?) }

  function FloatOrNull(x: Option<real>): Json { if x == None then Null else Float(x.value) }

  function PrintLimit(l: Limit): Json { Obj(map["down" := FloatOrNull(l.down), "up" := FloatOrNull(l.up)]) }

  lemma ReadLimitValid(j: Json)
    ensures ReadLimit(j).Some? ==> ValidLimit(ReadLimit(j).value)
  {
  }

  lemma PrintedLimitReads(l: Limit)
    requires ValidLimit(l)
    ensures ReadLimit(PrintLimit(l)) == Some(l)
  {
  }

  // -------------------------------------------------------------- the whole file

  predicate SubnetEntry(lib: Lib, k: string, j: Json) { IfaceName(k) && j.Str? && PoolText(lib, j.s) }

  function ReadSubnets(lib: Lib, j: Json): map<string, string> {
    if !j.Obj? then map[] else map k | k in j.fields && SubnetEntry(lib, k, j.fields[k]) :: j.fields[k].s
  }

  function ReadDns(lib: Lib, j: Json): map<string, seq<string>> {
    if !j.Obj? then map[]
    else map k | k in j.fields && CheckServers(lib, j.fields[k]).Some? :: CheckServers(lib, j.fields[k]).value
  }

  function ReadLimits(j: Json): map<string, Limit> {
    if !j.Obj? then map[] else map k | k in j.fields && ReadLimit(j.fields[k]).Some? :: ReadLimit(j.fields[k]).value
  }

  /** The entries of a list that can be read, in order. */
  function ReadAll<T>(items: seq<Json>, read1: Json -> Option<T>): seq<T>
    decreases |items|
  {
    if items == [] then []
    else
      var x := read1(items[|items| - 1]);
      ReadAll(items[..|items| - 1], read1) + if x == None then [] else [x.value]
  }

  function ReadBindings(lib: Lib, j: Json): seq<BindingEntry> {
    if j.Arr? then ReadAll(j.items, (x: Json) => ReadBinding(lib, x)) else []
  }

  function ReadAdoptions(lib: Lib, j: Json): seq<AdoptionEntry> {
    if j.Arr? then ReadAll(j.items, (x: Json) => ReadAdoption(lib, x)) else []
  }

  function ReadVersion(lib: Lib, j: Json): int { match ToInt(lib, j) case Some(n) => n case None => 1 }

  function ReadForward(lib: Lib, j: Json): Option<string> { if j == Null then None else Some(lib.text(j)) }

  function FromFields(lib: Lib, o: map<string, Json>): Content {
    Content(ReadVersion(lib, Get(o, "version")), ReadSubnets(lib, Get(o, "subnets")),
        ReadBindings(lib, Get(o, "bindings")),
            ReadForward(lib, Get(o, "ip_forward_prev")), ReadAdoptions(lib, Get(o, "adoptions")),
            ReadDns(lib, Get(o, "dns")), ReadLimits(Get(o, "limits")))
  }

  /** state_from_dict; None is the ValueError for what is not an object. */
  function FromJson(lib: Lib, j: Json): Option<Content> { if j.Obj? then Some(FromFields(lib, j.fields)) else None }

  const NOTHING := Content(1, map[], [], None, [], map[], map[])

  /** load_state: no file, text that is not JSON and JSON that is not an object all give an empty state. */
  function Load(lib: Lib, parsed: Option<Json>): Content {
    if parsed == None then NOTHING else match FromJson(lib, parsed.value) case Some(c) => c case None => NOTHING
  }

  const CONTENT_KEYS := {"version", "subnets", "bindings", "ip_forward_prev", "adoptions", "dns", "limits"}

  function TextOrNull(x: Option<string>): Json { if x == None then Null else Str(x.value) }

  function PrintSubnets(m: map<string, string>): Json { Obj(map k | k in m :: Str(m[k])) }
  function PrintDns(m: map<string, seq<string>>): Json { Obj(map k | k in m :: PrintServers(m[k])) }
  function PrintLimits(m: map<string, Limit>): Json { Obj(map k | k in m :: PrintLimit(m[k])) }

  function PrintAll<T>(xs: seq<T>, print1: T -> Json): (r: seq<Json>)
    ensures |r| == |xs|
    decreases |xs|
  {
    if xs == [] then [] else PrintAll(xs[..|xs| - 1], print1) + [print1(xs[|xs| - 1])]
  }

  function PrintBindings(bs: seq<BindingEntry>): Json { Arr(PrintAll(bs, PrintBinding)) }
  function PrintAdoptions(xs: seq<AdoptionEntry>): Json { Arr(PrintAll(xs, PrintAdoption)) }

  function ContentField(c: Content, k: string): Json {
    if k == "version" then Int(c.version)
    else if k == "subnets" then PrintSubnets(c.subnets)
    else if k == "bindings" then PrintBindings(c.bindings)
    else if k == "ip_forward_prev" then TextOrNull(c.forward)
    else if k == "adoptions" then PrintAdoptions(c.adoptions)
    else if k == "dns" then PrintDns(c.dns)
    else PrintLimits(c.limits)
  }

  /** state_to_dict. */
  function Print(c: Content): Json { Obj(map k | k in CONTENT_KEYS :: ContentField(c, k)) }

  /** What every entry of a state that was read satisfies. */
  ghost predicate ValidContent(lib: Lib, c: Content) {
    && (forall k | k in c.subnets :: IfaceName(k) && PoolText(lib, c.subnets[k]))
    && (forall b | b in c.bindings :: ValidBinding(lib, b))
    && (forall a | a in c.adoptions :: ValidAdoption(lib, a))
    && (forall k | k in c.dns :: ValidServers(lib, c.dns[k]))
    && (forall k | k in c.limits :: ValidLimit(c.limits[k]))
  }

  lemma {:induction false} AllFrom<T(!new)>(items: seq<Json>, read1: Json -> Option<T>)
    ensures forall x | x in ReadAll(items, read1) :: exists j :: j in items && read1(j) == Some(x)
    decreases |items|
  {
    if items != [] {
      var n := |items| - 1;
      AllFrom(items[..n], read1);
      forall x | x in ReadAll(items, read1) ensures exists j :: j in items && read1(j) == Some(x) {
        if x !in ReadAll(items[..n], read1) {
          assert items[n] in items && read1(items[n]) == Some(x);
        } else {
          var j :| j in items[..n] && read1(j) == Some(x);
          assert j in items;
        }
      }
    }
  }

  lemma BindingsValid(lib: Lib, items: seq<Json>)
    requires Reliable(lib)
    ensures forall b | b in ReadAll(items, (x: Json) => ReadBinding(lib, x)) :: ValidBinding(lib, b)
  {
    AllFrom(items, (x: Json) => ReadBinding(lib, x));
    forall b | b in ReadAll(items, (x: Json) => ReadBinding(lib, x)) ensures ValidBinding(lib, b) {
      var j :| j in items && ReadBinding(lib, j) == Some(b);
      ReadBindingValid(lib, j);
    }
  }

  lemma AdoptionsValid(lib: Lib, items: seq<Json>)
    requires Reliable(lib)
    ensures forall a | a in ReadAll(items, (x: Json) => ReadAdoption(lib, x)) :: ValidAdoption(lib, a)
  {
    AllFrom(items, (x: Json) => ReadAdoption(lib, x));
    forall a | a in ReadAll(items, (x: Json) => ReadAdoption(lib, x)) ensures ValidAdoption(lib, a) {
      var j :| j in items && ReadAdoption(lib, j) == Some(a);
      ReadAdoptionValid(lib, j);
    }
  }

  /** Every entry read from any JSON object is valid. */
  lemma ReadIsValid(lib: Lib, o: map<string, Json>)
    requires Reliable(lib)
    ensures ValidContent(lib, FromFields(lib, o))
  {
    if Get(o, "bindings").Arr? { BindingsValid(lib, Get(o, "bindings").items); }
    if Get(o, "adoptions").Arr? { AdoptionsValid(lib, Get(o, "adoptions").items); }
    var d, l := Get(o, "dns"), Get(o, "limits");
    forall k | k in ReadDns(lib, d) ensures ValidServers(lib, ReadDns(lib, d)[k]) {
      CanonicalValid(lib, d.fields[k].items);
    }
    forall k | k in ReadLimits(l) ensures ValidLimit(ReadLimits(l)[k]) {
      ReadLimitValid(l.fields[k]);
    }
  }

  lemma {:induction false} PrintedAllRead<T>(xs: seq<T>, print1: T -> Json, read1: Json -> Option<T>)
    requires forall i | 0 <= i < |xs| :: read1(print1(xs[i])) == Some(xs[i])
    ensures ReadAll(PrintAll(xs, print1), read1) == xs
    decreases |xs|
  {
    if xs != [] {
      var n := |xs| - 1;
      PrintedAllRead(xs[..n], print1, read1);
      assert PrintAll(xs, print1)[..n] == PrintAll(xs[..n], print1);
      assert xs == xs[..n] + [xs[n]];
    }
  }

  lemma PrintedBindingsRead(lib: Lib, bs: seq<BindingEntry>)
    requires Reliable(lib) && forall b | b in bs :: ValidBinding(lib, b)
    ensures ReadBindings(lib, PrintBindings(bs)) == bs
  {
    forall i | 0 <= i < |bs| ensures ReadBinding(lib, PrintBinding(bs[i])) == Some(bs[i]) {
      PrintedBindingReads(lib, bs[i]);
    }
    PrintedAllRead(bs, PrintBinding, (x: Json) => ReadBinding(lib, x));
  }

  lemma PrintedAdoptionsRead(lib: Lib, xs: seq<AdoptionEntry>)
    requires Reliable(lib) && forall a | a in xs :: ValidAdoption(lib, a)
    ensures ReadAdoptions(lib, PrintAdoptions(xs)) == xs
  {
    forall i | 0 <= i < |xs| ensures ReadAdoption(lib, PrintAdoption(xs[i])) == Some(xs[i]) {
      PrintedAdoptionReads(lib, xs[i]);
    }
    PrintedAllRead(xs, PrintAdoption, (x: Json) => ReadAdoption(lib, x));
  }

  lemma PrintedSubnetsRead(lib: Lib, m: map<string, string>)
    requires forall k | k in m :: IfaceName(k) && PoolText(lib, m[k])
    ensures ReadSubnets(lib, PrintSubnets(m)) == m
  {
  }

  lemma PrintedDnsReads(lib: Lib, m: map<string, seq<string>>)
    requires Reliable(lib) && forall k | k in m :: ValidServers(lib, m[k])
    ensures ReadDns(lib, PrintDns(m)) == m
  {
    forall k | k in m ensures CheckServers(lib, PrintServers(m[k])) == Some(m[k]) {
      PrintedServersRead(lib, m[k]);
    }
  }

  lemma PrintedLimitsRead(m: map<string, Limit>)
    requires forall k | k in m :: ValidLimit(m[k])
    ensures ReadLimits(PrintLimits(m)) == m
  {
    forall k | k in m ensures ReadLimit(PrintLimit(m[k])) == Some(m[k]) {
      PrintedLimitReads(m[k]);
    }
  }

  lemma PrintedKeys(c: Content)
    ensures var o := Print(c).fields;
            && Get(o, "version") == Int(c.version) && Get(o, "subnets") == PrintSubnets(c.subnets)
            && Get(o, "bindings") == PrintBindings(c.bindings) && Get(o, "ip_forward_prev") == TextOrNull(c.forward)
            && Get(o, "adoptions") == PrintAdoptions(c.adoptions) && Get(o, "dns") == PrintDns(c.dns)
            && Get(o, "limits") == PrintLimits(c.limits)
  {
  }

  /** Any valid state that is saved is loaded back as it was. */
  lemma SavedIsLoaded(lib: Lib, c: Content)
    requires Reliable(lib) && ValidContent(lib, c)
    ensures FromJson(lib, Print(c)) == Some(c) && Load(lib, Some(Print(c))) == c
  {
    PrintedKeys(c);
    PrintedSubnetsRead(lib, c.subnets);
    PrintedDnsReads(lib, c.dns);
    PrintedLimitsRead(c.limits);
    PrintedBindingsRead(lib, c.bindings);
    PrintedAdoptionsRead(lib, c.adoptions);
  }

  /** For every JSON object, what is read is a fixpoint of print-then-parse. */
  lemma LoadIsStable(lib: Lib, o: map<string, Json>)
    requires Reliable(lib)
    ensures FromJson(lib, Print(FromFields(lib, o))) == FromJson(lib, Obj(o))
  {
    ReadIsValid(lib, o);
    SavedIsLoaded(lib, FromFields(lib, o));
  }

  /** The states that can be read are exactly the valid ones. */
  lemma ReadableIffValid(lib: Lib, c: Content)
    requires Reliable(lib)
    ensures ValidContent(lib, c) <==> exists o :: FromFields(lib, o) == c
  {
    if ValidContent(lib, c) {
      SavedIsLoaded(lib, c);
      assert FromFields(lib, Print(c).fields) == c;
    }
    if o :| FromFields(lib, o) == c {
      ReadIsValid(lib, o);
    }
  }

  // -------------------------------------------------------------- the reading loops

  method SubnetsLoop(lib: Lib, j: Json) returns (subnets: map<string, string>)
    ensures subnets == ReadSubnets(lib, j)
  {
    subnets := map[];
    if !j.Obj? { return; }
    var todo := j.fields.Keys;
    while todo != {}
      invariant todo <= j.fields.Keys
      invariant subnets == map k | k in j.fields && k !in todo && SubnetEntry(lib, k, j.fields[k]) :: j.fields[k].s
      decreases todo
    {
      var k :| k in todo;
      todo := todo - {k};
      if SubnetEntry(lib, k, j.fields[k]) {
        subnets := subnets[k := j.fields[k].s];
      }
    }
  }

  method DnsLoop(lib: Lib, j: Json) returns (dns: map<string, seq<string>>)
    ensures dns == ReadDns(lib, j)
  {
    dns := map[];
    if !j.Obj? { return; }
    var todo := j.fields.Keys;
    while todo != {}
      invariant todo <= j.fields.Keys
      invariant dns == map k | k in j.fields && k !in todo && CheckServers(lib, j.fields[k]).Some? ::
                 CheckServers(lib, j.fields[k]).value
      decreases todo
    {
      var k :| k in todo;
      todo := todo - {k};
      var servers := ReadServers(lib, j.fields[k]);
      if servers.Some? {
        dns := dns[k := servers.value];
      }
    }
  }

  method LimitsLoop(j: Json) returns (limits: map<string, Limit>)
    ensures limits == ReadLimits(j)
  {
    limits := map[];
    if !j.Obj? { return; }
    var todo := j.fields.Keys;
    while todo != {}
      invariant todo <= j.fields.Keys
      invariant limits == map k | k in j.fields && k !in todo && ReadLimit(j.fields[k]).Some? ::
                 ReadLimit(j.fields[k]).value
      decreases todo
    {
      var k :| k in todo;
      todo := todo - {k};
      var limit := ReadLimit(j.fields[k]);
      if limit.Some? {
        limits := limits[k := limit.value];
      }
    }
  }

  method BindingsLoop(lib: Lib, j: Json) returns (bindings: seq<BindingEntry>)
    ensures bindings == ReadBindings(lib, j)
  {
    bindings := [];
    if !j.Arr? { return; }
    for i := 0 to |j.items|
      invariant bindings == ReadAll(j.items[..i], (x: Json) => ReadBinding(lib, x))
    {
      assert j.items[..i + 1][..i] == j.items[..i];
      var b := ReadBinding(lib, j.items[i]);
      if b.Some? {
        bindings := bindings + [b.value];
      }
    }
    assert j.items[..|j.items|] == j.items;
  }

  method AdoptionsLoop(lib: Lib, j: Json) returns (adoptions: seq<AdoptionEntry>)
    ensures adoptions == ReadAdoptions(lib, j)
  {
    adoptions := [];
    if !j.Arr? { return; }
    for i := 0 to |j.items|
      invariant adoptions == ReadAll(j.items[..i], (x: Json) => ReadAdoption(lib, x))
    {
      assert j.items[..i + 1][..i] == j.items[..i];
      var a := ReadAdoption(lib, j.items[i]);
      if a.Some? {
        adoptions := adoptions + [a.value];
      }
    }
    assert j.items[..|j.items|] == j.items;
  }

  /** state_from_dict with its loops. */
  method StateFromDict(lib: Lib, j: Json) returns (c: Option<Content>)
    ensures c == FromJson(lib, j)
  {
    if !j.Obj? { return None; }
    var o := j.fields;
    var subnets := SubnetsLoop(lib, Get(o, "subnets"));
    var bindings := BindingsLoop(lib, Get(o, "bindings"));
    var adoptions := AdoptionsLoop(lib, Get(o, "adoptions"));
    var dns := DnsLoop(lib, Get(o, "dns"));
    var limits := LimitsLoop(Get(o, "limits"));
    c := Some(Content(ReadVersion(lib, Get(o, "version")), subnets, bindings,
              ReadForward(lib, Get(o, "ip_forward_prev")),
                      adoptions, dns, limits));
  }
}
