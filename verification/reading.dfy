/** Which entries of a state file are taken, and as what, independent of the order of the checks
    (intermux/state.py). */
module Reading {
  import opened Basics
  import opened Subnets
  import opened StateFile

  // -------------------------------------------------------------- values

  /** int() of a value: of a number without its fraction, of text what the library reads. */
  ghost predicate IntFrom(lib: Lib, j: Json, n: int) {
    match j
    case Bool(b) => n == if b then 1 else 0
    case Int(i) => n == i
    case Float(r) => if r < 0.0 then n as real - 1.0 < r <= n as real else n as real <= r < n as real + 1.0
    case Str(s) => lib.intOf(s) == Some(n)
    case _ => false
  }

  lemma ToIntIff(lib: Lib, j: Json, n: int)
    ensures ToInt(lib, j) == Some(n) <==> IntFrom(lib, j, n)
  {
  }

  lemma ToIntNone(lib: Lib, j: Json)
    ensures ToInt(lib, j) == None <==> forall n :: !IntFrom(lib, j, n)
  {
    if ToInt(lib, j).Some? {
      ToIntIff(lib, j, ToInt(lib, j).value);
    }
    if n :| IntFrom(lib, j, n) {
      ToIntIff(lib, j, n);
    }
  }

  /** There, and neither null nor the empty text. */
  ghost predicate There(o: map<string, Json>, k: string) { k in o && o[k] != Null && o[k] != Str("") }

  /** There, and not one of the values Python takes for false. */
  ghost predicate Given(o: map<string, Json>, k: string) {
    && k in o && o[k] != Null && o[k] != Bool(false) && o[k] != Int(0) && o[k] != Float(0.0) && o[k] != Str("")
    && o[k] != Arr([]) && o[k] != Obj(map[])
  }

  ghost predicate TextFrom(lib: Lib, o: map<string, Json>, k: string, default: string, t: string) {
    t == if Given(o, k) then lib.text(o[k]) else default
  }

  lemma TextOrIff(lib: Lib, o: map<string, Json>, k: string, default: string, t: string)
    ensures TextOr(lib, o, k, default) == t <==> TextFrom(lib, o, k, default, t)
  {
  }

  /** Text of one of 10.200.1.0/24 to 10.200.254.0/24. */
  ghost predicate PoolName(lib: Lib, t: string) {
    exists n: nat :: 1 <= n <= 254 && lib.network(t) == Some(Net(0x0AC8_0000 + 256 * n, 24))
  }

  lemma PoolTextIff(lib: Lib, t: string)
    requires Reliable(lib)
    ensures PoolText(lib, t) <==> PoolName(lib, t)
  {
    if lib.network(t).Some? {
      Sizes();
      PoolNumber(lib.network(t).value);
    }
  }

  // -------------------------------------------------------------- bindings

  /** A pid that can be signalled; anything else is no pid. */
  ghost predicate PidFrom(lib: Lib, o: map<string, Json>, pid: Option<int>) {
    if "pid" in o && !o["pid"].Bool? && exists n :: n > 1 && IntFrom(lib, o["pid"], n)
    then pid.Some? && pid.value > 1 && IntFrom(lib, o["pid"], pid.value)
    else pid == None
  }

  lemma ReadPidIff(lib: Lib, o: map<string, Json>, pid: Option<int>)
    ensures ReadPid(lib, Get(o, "pid")) == pid <==> PidFrom(lib, o, pid)
  {
    var j := Get(o, "pid");
    ToIntNone(lib, j);
    if ToInt(lib, j).Some? {
      forall n ensures IntFrom(lib, j, n) <==> n == ToInt(lib, j).value {
        ToIntIff(lib, j, n);
      }
    }
  }

  /** The binding the fields of an object stand for. */
  ghost predicate Binds(lib: Lib, o: map<string, Json>, b: BindingEntry) {
    && There(o, "iface") && There(o, "app") && There(o, "namespace") && There(o, "subnet") && There(o, "table")
    && There(o, "priority")
    && b.iface == lib.text(o["iface"]) && IfaceName(b.iface) && b.app == lib.text(o["app"])
    && b.namespace == lib.text(o["namespace"]) && NsName(b.namespace)
    && o["subnet"] == Str(b.subnet) && PoolName(lib, b.subnet)
    && IntFrom(lib, o["table"], b.table) && 1 <= b.table <= 0x7FFF_FFFF
    && IntFrom(lib, o["priority"], b.priority) && 1 <= b.priority <= 32765
    && TextFrom(lib, o, "app_name", lib.basename(b.app), b.appName)
    && TextFrom(lib, o, "profile_mode", "default", b.mode)
    && TextFrom(lib, o, "log_path", "", b.log) && TextFrom(lib, o, "created_at", "", b.created)
    && PidFrom(lib, o, b.pid)
  }

  /** A binding is read exactly from the objects that stand for it. */
  lemma BindingIff(lib: Lib, j: Json, b: BindingEntry)
    requires Reliable(lib)
    ensures ReadBinding(lib, j) == Some(b) <==> j.Obj? && Binds(lib, j.fields, b)
  {
    if j.Obj? && !BindingKeysMissing(j.fields) {
      var o := j.fields;
      ToIntIff(lib, o["table"], b.table);
      ToIntIff(lib, o["priority"], b.priority);
      PoolTextIff(lib, b.subnet);
      ReadPidIff(lib, o, b.pid);
      BindingTexts(lib, o, b);
    }
  }

  lemma BindingTexts(lib: Lib, o: map<string, Json>, b: BindingEntry)
    ensures TextOr(lib, o, "app_name", lib.basename(b.app)) == b.appName
            <==> TextFrom(lib, o, "app_name", lib.basename(b.app), b.appName)
    ensures TextOr(lib, o, "profile_mode", "default") == b.mode <==> TextFrom(lib, o, "profile_mode", "default", b.mode)
    ensures TextOr(lib, o, "log_path", "") == b.log <==> TextFrom(lib, o, "log_path", "", b.log)
    ensures TextOr(lib, o, "created_at", "") == b.created <==> TextFrom(lib, o, "created_at", "", b.created)
  {
    TextOrIff(lib, o, "app_name", lib.basename(b.app), b.appName);
    TextOrIff(lib, o, "profile_mode", "default", b.mode);
    TextOrIff(lib, o, "log_path", "", b.log);
    TextOrIff(lib, o, "created_at", "", b.created);
  }

  // -------------------------------------------------------------- adoptions

  ghost predicate IntsFrom(lib: Lib, items: seq<Json>, xs: seq<int>) {
    |xs| == |items| && forall i | 0 <= i < |items| :: IntFrom(lib, items[i], xs[i])
  }

  lemma {:induction false} ReadIntsIff(lib: Lib, items: seq<Json>, xs: seq<int>)
    ensures ReadInts(lib, items) == Some(xs) <==> IntsFrom(lib, items, xs)
  {
    if items != [] && xs != [] {
      ToIntIff(lib, items[0], xs[0]);
      ReadIntsIff(lib, items[1..], xs[1..]);
      assert xs == [xs[0]] + xs[1..];
      assert IntsFrom(lib, items, xs) <==> IntFrom(lib, items[0], xs[0]) && IntsFrom(lib, items[1..], xs[1..]);
    }
  }

  ghost predicate PidsFrom(lib: Lib, o: map<string, Json>, xs: seq<int>) {
    if Given(o, "pids") then o["pids"].Arr? && IntsFrom(lib, o["pids"].items, xs) else xs == []
  }

  lemma PidsIff(lib: Lib, o: map<string, Json>, xs: seq<int>)
    ensures ReadPids(lib, Get(o, "pids")) == Some(xs) <==> PidsFrom(lib, o, xs)
  {
    if Given(o, "pids") && o["pids"].Arr? {
      ReadIntsIff(lib, o["pids"].items, xs);
    }
  }

  /** The adoption the fields of an object stand for. */
  ghost predicate Adopts(lib: Lib, o: map<string, Json>, a: AdoptionEntry) {
    && There(o, "id") && There(o, "iface") && There(o, "app") && There(o, "slot") && There(o, "group")
    && There(o, "mark") && There(o, "table") && There(o, "priority") && There(o, "uid")
    && a.id == lib.text(o["id"]) && AdoptionId(a.id) && a.iface == lib.text(o["iface"]) && IfaceName(a.iface)
    && a.app == lib.text(o["app"]) && a.group == lib.text(o["group"]) && a.group == "intermux/adopt-" + a.id
    && IntFrom(lib, o["slot"], a.slot) && 1 <= a.slot <= 200 && IntFrom(lib, o["mark"], a.mark)
    && IntFrom(lib, o["table"], a.table) && IntFrom(lib, o["priority"], a.priority)
    && !o["uid"].Bool? && IntFrom(lib, o["uid"], a.uid) && PidsFrom(lib, o, a.pids)
    && TextFrom(lib, o, "app_name", lib.basename(a.app), a.appName) && TextFrom(lib, o, "created_at", "", a.created)
  }

  lemma NumbersIff(lib: Lib, o: map<string, Json>, a: AdoptionEntry)
    requires There(o, "slot") && There(o, "mark") && There(o, "table") && There(o, "priority") && There(o, "uid")
    ensures ReadNumbers(lib, o) == Some((a.slot, a.mark, a.table, a.priority, a.uid))
            <==> && IntFrom(lib, o["slot"], a.slot) && IntFrom(lib, o["mark"], a.mark)
                 && IntFrom(lib, o["table"], a.table) && IntFrom(lib, o["priority"], a.priority)
                 && !o["uid"].Bool? && IntFrom(lib, o["uid"], a.uid)
  {
    ToIntIff(lib, o["slot"], a.slot);
    ToIntIff(lib, o["mark"], a.mark);
    ToIntIff(lib, o["table"], a.table);
    ToIntIff(lib, o["priority"], a.priority);
    ToIntIff(lib, o["uid"], a.uid);
  }

  /** An adoption is read exactly from the objects that stand for it. */
  lemma AdoptionIff(lib: Lib, j: Json, a: AdoptionEntry)
    requires Reliable(lib)
    ensures ReadAdoption(lib, j) == Some(a) <==> j.Obj? && Adopts(lib, j.fields, a)
  {
    if j.Obj? && !AdoptionKeysMissing(j.fields) {
      var o := j.fields;
      NumbersIff(lib, o, a);
      PidsIff(lib, o, a.pids);
      TextOrIff(lib, o, "app_name", lib.basename(a.app), a.appName);
      TextOrIff(lib, o, "created_at", "", a.created);
    }
  }

  // -------------------------------------------------------------- limits

  /** Null, or a number from 0.064 to 100000 that is no truth value. */
  ghost predicate MbitFrom(o: map<string, Json>, k: string, x: Option<real>) {
    if k !in o || o[k] == Null then x == None
    else x.Some? && 0.064 <= x.value <= 100000.0
         && (o[k] == Float(x.value) || exists i: int :: o[k] == Int(i) && i as real == x.value)
  }

  /** A limit is read exactly from the objects that give one for at least one direction. */
  lemma LimitIff(j: Json, l: Limit)
    ensures ReadLimit(j) == Some(l)
            <==> j.Obj? && MbitFrom(j.fields, "down", l.down) && MbitFrom(j.fields, "up", l.up)
                 && (l.down.Some? || l.up.Some?)
  {
  }

  // -------------------------------------------------------------- lists and the whole file

  /** `at` are the positions of the items that can be read, in order. */
  ghost predicate Readable<T(!new)>(items: seq<Json>, read1: Json -> Option<T>, at: seq<nat>) {
    && (forall i: nat :: i in at <==> i < |items| && read1(items[i]).Some?)
    && (forall k | 0 <= k < |at| :: at[k] < |items| && read1(items[at[k]]).Some?)
    && forall x, y | 0 <= x < y < |at| :: at[x] < at[y]
  }

  ghost function ReadAt<T>(items: seq<Json>, read1: Json -> Option<T>, at: seq<nat>): seq<T>
    requires forall k | 0 <= k < |at| :: at[k] < |items| && read1(items[at[k]]).Some?
  {
    seq(|at|, k requires 0 <= k < |at| => read1(items[at[k]]).value)
  }

  /** A list gives its readable items, all of them, in their order. */
  lemma {:induction false} ReadAllAre<T(!new)>(items: seq<Json>, read1: Json -> Option<T>) returns (at: seq<nat>)
    ensures Readable(items, read1, at) && ReadAll(items, read1) == ReadAt(items, read1, at)
    decreases |items|
  {
    at := [];
    if items != [] {
      var n := |items| - 1;
      var before := ReadAllAre(items[..n], read1);
      at := ReadableNext(items, read1, before);
      assert ReadAt(items[..n], read1, before) == ReadAt(items, read1, before);
      if read1(items[n]).Some? {
        assert ReadAt(items, read1, at) == ReadAt(items, read1, before) + [read1(items[n]).value];
      }
    }
  }

  lemma ReadableNext<T(!new)>(items: seq<Json>, read1: Json -> Option<T>, before: seq<nat>) returns (at: seq<nat>)
    requires items != [] && Readable(items[..|items| - 1], read1, before)
    ensures Readable(items, read1, at)
    ensures at == if read1(items[|items| - 1]) == None then before else before + [|items| - 1]
  {
    var n := |items| - 1;
    at := if read1(items[n]) == None then before else before + [n];
    forall i: nat ensures i in at <==> i < |items| && read1(items[i]).Some? {
      assert i in before <==> i < n && read1(items[..n][i]).Some?;
    }
    forall x, y | 0 <= x < y < |at| ensures at[x] < at[y] {
      assert before == at[..|before|] && before[x] < n;
    }
  }

  /** A subnet is taken for an interface exactly when both can be used, the DNS servers and the limit of one exactly
      when they are valid; bindings and adoptions are lists. */
  lemma FieldsIff(lib: Lib, o: map<string, Json>, k: string)
    requires Reliable(lib)
    ensures var c, j := FromFields(lib, o), Get(o, "subnets");
            && (k in c.subnets <==> j.Obj? && k in j.fields && IfaceName(k) && j.fields[k].Str?
                                    && PoolName(lib, j.fields[k].s))
            && (k in c.subnets ==> j.fields[k] == Str(c.subnets[k]))
    ensures var c, j := FromFields(lib, o), Get(o, "dns");
            && (k in c.dns <==> j.Obj? && k in j.fields && CheckServers(lib, j.fields[k]).Some?)
            && (k in c.dns ==> CheckServers(lib, j.fields[k]) == Some(c.dns[k]))
    ensures var c, j := FromFields(lib, o), Get(o, "limits");
            && (k in c.limits <==> j.Obj? && k in j.fields && ReadLimit(j.fields[k]).Some?)
            && (k in c.limits ==> ReadLimit(j.fields[k]) == Some(c.limits[k]))
  {
    if Get(o, "subnets").Obj? && k in Get(o, "subnets").fields && Get(o, "subnets").fields[k].Str? {
      PoolTextIff(lib, Get(o, "subnets").fields[k].s);
    }
  }
}
