/** The process table: descendants and application processes (intermux/system/procs.py). */
module Procs {
  import opened Basics

  type Pid = nat

  datatype Proc = Proc(pid: Pid, ppid: Pid, comm: string, uid: nat, exe: Option<string>, netns: Option<nat>)

  predicate Admits(uid: Option<nat>, q: Proc) { uid == None || q.uid == uid.value }

  /** Processes in a named namespace, of `uid` when given; none when the name is gone. */
  function SpaceOf(procs: seq<Proc>, spaces: set<nat>, h: nat, uid: Option<nat>): set<Pid> {
    if h in spaces then set p | p in procs && p.netns == Some(h) && Admits(uid, p) :: p.pid else {}
  }

  /** Some listed process with this pid is in the named namespace, under `uid` when given. */
  ghost predicate InSpaceOf(procs: seq<Proc>, spaces: set<nat>, h: nat, uid: Option<nat>, p: Pid) {
    h in spaces && exists q :: q in procs && q.pid == p && q.netns == Some(h) && (uid == None || q.uid == uid.value)
  }

  lemma SpaceIff(procs: seq<Proc>, spaces: set<nat>, h: nat, uid: Option<nat>)
    ensures forall p :: p in SpaceOf(procs, spaces, h, uid) <==> InSpaceOf(procs, spaces, h, uid, p)
    ensures SpaceOf(procs, spaces, h, uid) != {} <==> exists p :: InSpaceOf(procs, spaces, h, uid, p)
  {
  }

  /** `c` is listed as a child of `p`, owned by `uid` when a uid is given. */
  ghost predicate IsChild(table: seq<Proc>, uid: Option<nat>, p: Pid, c: Pid) {
    exists q :: q in table && q.ppid == p && q.pid == c && (uid == None || q.uid == uid.value)
  }

  ghost predicate Closed(table: seq<Proc>, uid: Option<nat>, s: set<Pid>) {
    forall q | q in table && q.ppid in s && Admits(uid, q) :: q.pid in s
  }

  ghost function TablePids(table: seq<Proc>): set<Pid> {
    set q | q in table :: q.pid
  }

  ghost function Expand(table: seq<Proc>, uid: Option<nat>, s: set<Pid>): set<Pid> {
    s + set q | q in table && q.ppid in s && Admits(uid, q) :: q.pid
  }

  /** The seeds and everything reached from them through children: the least closed set over them. */
  ghost function Family(table: seq<Proc>, uid: Option<nat>, seeds: set<Pid>): (r: set<Pid>)
    ensures seeds <= r && r <= seeds + TablePids(table)
    ensures Closed(table, uid, r)
    decreases |TablePids(table) - seeds|
  {
    var more := Expand(table, uid, seeds);
    if more == seeds then seeds
    else
      var x :| x in more && x !in seeds;
      assert TablePids(table) - more < TablePids(table) - seeds by {
        assert x in TablePids(table) - seeds && x !in TablePids(table) - more;
      }
      CardinalityDrops(TablePids(table) - more, TablePids(table) - seeds);
      Family(table, uid, more)
  }

  lemma CardinalityDrops<T>(a: set<T>, b: set<T>)
    requires a < b
    ensures |a| < |b|
  {
    assert b == a + (b - a);
    assert b - a != {};
    assert |b| == |a| + |b - a|;
  }

  lemma {:induction false} FamilyIsLeast(table: seq<Proc>, uid: Option<nat>, seeds: set<Pid>, s: set<Pid>)
    requires seeds <= s && Closed(table, uid, s)
    ensures Family(table, uid, seeds) <= s
    decreases |TablePids(table) - seeds|
  {
    var more := Expand(table, uid, seeds);
    if more != seeds {
      var x :| x in more && x !in seeds;
      assert x in TablePids(table) - seeds && x !in TablePids(table) - more;
      CardinalityDrops(TablePids(table) - more, TablePids(table) - seeds);
      FamilyIsLeast(table, uid, more, s);
    }
  }

  /** A chain of parent-to-child links, each child admitted by `uid`. */
  ghost predicate IsLineage(table: seq<Proc>, uid: Option<nat>, path: seq<Pid>) {
    path != [] && forall i | 0 <= i < |path| - 1 :: IsChild(table, uid, path[i], path[i + 1])
  }

  /** A chain of such links leads from a seed to p. */
  ghost predicate Reachable(table: seq<Proc>, uid: Option<nat>, seeds: set<Pid>, p: Pid) {
    exists path :: IsLineage(table, uid, path) && path[0] in seeds && path[|path| - 1] == p
  }

  lemma ReachChild(table: seq<Proc>, uid: Option<nat>, seeds: set<Pid>, q: Proc)
    requires Reachable(table, uid, seeds, q.ppid) && q in table && Admits(uid, q)
    ensures Reachable(table, uid, seeds, q.pid)
  {
    var path :| IsLineage(table, uid, path) && path[0] in seeds && path[|path| - 1] == q.ppid;
    var longer := path + [q.pid];
    assert IsChild(table, uid, q.ppid, q.pid);
    assert IsLineage(table, uid, longer) && longer[0] in seeds && longer[|longer| - 1] == q.pid;
  }

  /** A pid is in the family of the seeds exactly when a chain of such links leads to it from a seed. */
  lemma FamilyIsReachable(table: seq<Proc>, uid: Option<nat>, seeds: set<Pid>, p: Pid)
    ensures p in Family(table, uid, seeds) <==> Reachable(table, uid, seeds, p)
  {
    var fam := Family(table, uid, seeds);
    if Reachable(table, uid, seeds, p) {
      var path :| IsLineage(table, uid, path) && path[0] in seeds && path[|path| - 1] == p;
      LineageStays(table, uid, path, fam);
    }
    ghost var reached := set x | x in fam && Reachable(table, uid, seeds, x);
    forall x | x in seeds ensures x in reached {
      assert IsLineage(table, uid, [x]) && [x][0] in seeds && [x][|[x]| - 1] == x;
    }
    forall q | q in table && q.ppid in reached && Admits(uid, q) ensures q.pid in reached {
      ReachChild(table, uid, seeds, q);
    }
    FamilyIsLeast(table, uid, seeds, reached);
  }

  /** What is reached from a set is reached from one of its members. */
  lemma ReachedFromOne(table: seq<Proc>, uid: Option<nat>, seeds: set<Pid>, p: Pid)
    ensures Reachable(table, uid, seeds, p) <==> exists x :: x in seeds && Reachable(table, uid, {x}, p)
  {
  }

  lemma {:induction false} LineageStays(table: seq<Proc>, uid: Option<nat>, path: seq<Pid>, s: set<Pid>)
    requires IsLineage(table, uid, path) && path[0] in s && Closed(table, uid, s)
    ensures path[|path| - 1] in s
  {
    if |path| > 1 {
      assert IsChild(table, uid, path[0], path[1]);
      LineageStays(table, uid, path[1..], s);
    }
  }

  /** Everyone in the family of seeds that `uid` owns is owned by `uid` too. */
  lemma FamilyOwned(table: seq<Proc>, uid: nat, seeds: set<Pid>)
    requires forall p | p in seeds :: Owned(table, uid, p)
    ensures forall p | p in Family(table, Some(uid), seeds) :: Owned(table, uid, p)
  {
    var mine := set q | q in table && q.uid == uid :: q.pid;
    FamilyIsLeast(table, Some(uid), seeds, mine);
  }

  /** Some entry of the table gives `p` to `uid`. */
  ghost predicate Owned(table: seq<Proc>, uid: nat, p: Pid) {
    exists q :: q in table && q.pid == p && q.uid == uid
  }

  lemma ChildOfLonger(table: seq<Proc>, q: Proc, uid: Option<nat>, p: Pid, c: Pid)
    ensures IsChild(table + [q], uid, p, c) <==>
            IsChild(table, uid, p, c) || (q.ppid == p && q.pid == c && Admits(uid, q))
  {
  }

  /** The children dictionary groups the admitted entries of the table by parent. */
  ghost predicate Groups(children: map<Pid, seq<Pid>>, table: seq<Proc>, uid: Option<nat>) {
    forall p: Pid, c: Pid :: Lists(children, p, c) <==> IsChild(table, uid, p, c)
  }

  predicate Lists(children: map<Pid, seq<Pid>>, p: Pid, c: Pid) { p in children && c in children[p] }

  method Children(table: seq<Proc>, uid: Option<nat>) returns (children: map<Pid, seq<Pid>>)
    ensures Groups(children, table, uid)
  {
    children := map[];
    for i := 0 to |table|
      invariant Groups(children, table[..i], uid)
    {
      var q := table[i];
      ghost var before := children;
      if Admits(uid, q) {
        children := children[q.ppid := (if q.ppid in children then children[q.ppid] else []) + [q.pid]];
      }
      assert table[..i + 1] == table[..i] + [q];
      forall p: Pid, c: Pid ensures Lists(children, p, c) <==> IsChild(table[..i + 1], uid, p, c) {
        ChildOfLonger(table[..i], q, uid, p, c);
        assert Lists(before, p, c) <==> IsChild(table[..i], uid, p, c);
      }
    }
    assert table[..|table|] == table;
  }

  /** Invariant of the descendants() loop: what is seen has its children queued. */
  ghost predicate Explored(table: seq<Proc>, uid: Option<nat>, seen: set<Pid>, queue: seq<Pid>) {
    forall q | q in table && q.ppid in seen && Admits(uid, q) :: q.pid in queue
  }

  lemma KidsQueued(table: seq<Proc>, uid: Option<nat>, children: map<Pid, seq<Pid>>, seen: set<Pid>, queue: seq<Pid>,
                   pid: Pid, kids: seq<Pid>)
    requires Groups(children, table, uid) && Explored(table, uid, seen, queue)
    requires kids == if pid in children then children[pid] else []
    ensures Explored(table, uid, seen + {pid}, queue + kids)
  {
    forall q | q in table && q.ppid in seen + {pid} && Admits(uid, q) ensures q.pid in queue + kids {
      if q.ppid == pid {
        assert IsChild(table, uid, pid, q.pid);
        assert Lists(children, pid, q.pid);
      }
    }
  }

  lemma KidsInFamily(table: seq<Proc>, uid: Option<nat>, children: map<Pid, seq<Pid>>, fam: set<Pid>, pid: Pid,
                     kids: seq<Pid>)
    requires Groups(children, table, uid) && Closed(table, uid, fam) && pid in fam
    requires kids == if pid in children then children[pid] else []
    ensures Elems(kids) <= fam
  {
    forall c | c in kids ensures c in fam {
      assert Lists(children, pid, c);
      assert IsChild(table, uid, pid, c);
    }
  }

  ghost predicate VisitedUpTo(queue: seq<Pid>, index: nat, seen: set<Pid>) {
    index <= |queue| && forall i | 0 <= i < index :: queue[i] in seen
  }

  lemma VisitNext(queue: seq<Pid>, index: nat, seen: set<Pid>, kids: seq<Pid>)
    requires index < |queue| && VisitedUpTo(queue, index, seen)
    ensures VisitedUpTo(queue + kids, index + 1, seen + {queue[index]})
  {
  }

  /** descendants(): the family of the given pids as a list; the table may hold cycles. */
  method Descendants(pids: seq<Pid>, table: seq<Proc>, uid: Option<nat>) returns (result: seq<Pid>)
    ensures NoDup(result)
    ensures Elems(result) == Family(table, uid, Elems(pids))
  {
    result := Walk(pids, table, uid, Family(table, uid, Elems(pids)));
    FamilyIsLeast(table, uid, Elems(pids), Elems(result));
  }

  /** Where the loop of descendants() stands: the first `index` entries of the queue were seen, the result lists
      what was seen, and what is seen has its children queued. */
  ghost predicate Walked(pids: seq<Pid>, table: seq<Proc>, uid: Option<nat>, fam: set<Pid>, queue: seq<Pid>,
                         index: nat, result: seq<Pid>)
  {
    NoDup(result) && Elems(result) <= fam && Elems(queue) <= fam && Elems(pids) <= Elems(queue)
    && VisitedUpTo(queue, index, Elems(result)) && Explored(table, uid, Elems(result), queue)
  }

  lemma WalkStarts(pids: seq<Pid>, table: seq<Proc>, uid: Option<nat>, fam: set<Pid>)
    requires Elems(pids) <= fam
    ensures Walked(pids, table, uid, fam, pids, 0, [])
  {
  }

  lemma WalkEnds(pids: seq<Pid>, table: seq<Proc>, uid: Option<nat>, fam: set<Pid>, queue: seq<Pid>, result: seq<Pid>)
    requires Walked(pids, table, uid, fam, queue, |queue|, result)
    ensures Elems(pids) <= Elems(result) && Closed(table, uid, Elems(result))
  {
    forall p | p in Elems(queue) ensures p in Elems(result) {
      var i :| 0 <= i < |queue| && queue[i] == p;
    }
  }

  /** One turn with a pid not seen before. */
  lemma WalkNext(pids: seq<Pid>, table: seq<Proc>, uid: Option<nat>, fam: set<Pid>, queue: seq<Pid>, index: nat,
                 result: seq<Pid>, children: map<Pid, seq<Pid>>, kids: seq<Pid>)
    requires Walked(pids, table, uid, fam, queue, index, result) && index < |queue| && queue[index] !in result
    requires Groups(children, table, uid) && Closed(table, uid, fam)
    requires kids == if queue[index] in children then children[queue[index]] else []
    ensures Walked(pids, table, uid, fam, queue + kids, index + 1, result + [queue[index]])
    ensures |fam - Elems(result + [queue[index]])| < |fam - Elems(result)|
  {
    var pid, seen := queue[index], Elems(result);
    assert pid in Elems(queue);
    KidsQueued(table, uid, children, seen, queue, pid, kids);
    KidsInFamily(table, uid, children, fam, pid, kids);
    ElemsAppend(queue, kids);
    ElemsAppend(result, [pid]);
    NoDupAppend(result, pid);
    VisitNext(queue, index, seen, kids);
    assert Elems(result + [pid]) == seen + {pid};
    CardinalityDrops(fam - (seen + {pid}), fam - seen);
  }

  method Walk(pids: seq<Pid>, table: seq<Proc>, uid: Option<nat>, ghost fam: set<Pid>) returns (result: seq<Pid>)
    requires Elems(pids) <= fam && Closed(table, uid, fam)
    ensures NoDup(result)
    ensures Elems(pids) <= Elems(result) <= fam && Closed(table, uid, Elems(result))
  {
    var children := Children(table, uid);
    result := [];
    var seen: set<Pid> := {};
    var queue := pids;
    var index := 0;
    WalkStarts(pids, table, uid, fam);
    while index < |queue|
      invariant 0 <= index <= |queue| && seen == Elems(result)
      invariant Walked(pids, table, uid, fam, queue, index, result)
      decreases |fam - Elems(result)|, |queue| - index
    {
      var pid := queue[index];
      index := index + 1;
      if pid in seen { continue; }
      var kids := if pid in children then children[pid] else [];
      WalkNext(pids, table, uid, fam, queue, index - 1, result, children, kids);
      ElemsAppend(result, [pid]);
      seen := seen + {pid};
      result := result + [pid];
      queue := queue + kids;
    }
    WalkEnds(pids, table, uid, fam, queue, result);
  }

  /** Whom terminate() signals: the given pids without repetition, but never 0, 1 or this process. */
  function Targets(pids: seq<Pid>, me: Pid): (r: seq<Pid>)
    ensures NoDup(r)
    ensures forall p :: p in r <==> p in pids && p > 1 && p != me
    decreases |pids|
  {
    if pids == [] then []
    else
      var n := |pids| - 1;
      var rest := Targets(pids[..n], me);
      assert pids == pids[..n] + [pids[n]];
      if pids[n] > 1 && pids[n] != me && pids[n] !in rest then rest + [pids[n]] else rest
  }

  predicate Runs(p: Proc, app: string, names: set<string>) {
    p.comm in names || p.exe == Some(app)
  }

  /** Processes that run `app` by name or executable, of `uid` when given, never this process. */
  method FindAppProcs(app: string, names: set<string>, uid: Option<nat>, me: Pid, table: seq<Proc>)
    returns (matches: seq<Proc>)
    ensures Within(matches, table)
    ensures forall p :: p in matches <==>
              && p in table && p.pid != me && (uid == None || p.uid == uid.value)
              && (p.comm in names || p.exe == Some(app))
    ensures matches == Filter(table, (p: Proc) => p.pid != me && Admits(uid, p) && Runs(p, app, names))
  {
    matches := [];
    ghost var keep := (p: Proc) => p.pid != me && Admits(uid, p) && Runs(p, app, names);
    for i := 0 to |table|
      invariant matches == Filter(table[..i], keep)
    {
      var p := table[i];
      FilterNext(table, i, keep);
      if p.pid == me { continue; }
      if uid.Some? && p.uid != uid.value { continue; }
      if Runs(p, app, names) {
        matches := matches + [p];
      }
    }
    assert table[..|table|] == table;
    AppProcsAre(table, app, names, uid, me, keep);
  }

  lemma AppProcsAre(table: seq<Proc>, app: string, names: set<string>, uid: Option<nat>, me: Pid, keep: Proc -> bool)
    requires forall p :: keep(p) <==> p.pid != me && Admits(uid, p) && Runs(p, app, names)
    ensures Within(Filter(table, keep), table)
    ensures forall p :: p in Filter(table, keep) <==>
              && p in table && p.pid != me && (uid == None || p.uid == uid.value)
              && (p.comm in names || p.exe == Some(app))
  {
  }
}
