/** The records the engine writes, as state files: saving one and loading it gives the same record back
    (intermux/state.py, intermux/system/netns.py for the names). */
module Persistence {
  import opened Basics
  import opened Subnets
  import opened Record
  import opened StateFile

  // -------------------------------------------------------------- names with eight hex digits

  const DIGITS := "0123456789abcdef"

  /** The k low hex digits of h. */
  function Hex(h: nat, k: nat): (s: string)
    ensures |s| == k && forall c | c in s :: HexChar(c)
  {
    if k == 0 then [] else Hex(h / 16, k - 1) + [DIGITS[h % 16]]
  }

  function Power16(k: nat): nat { if k == 0 then 1 else 16 * Power16(k - 1) }

  lemma {:induction false} HexInjective(a: nat, b: nat, k: nat)
    requires a < Power16(k) && b < Power16(k) && Hex(a, k) == Hex(b, k)
    ensures a == b
  {
    if k > 0 {
      var s, t := Hex(a, k), Hex(b, k);
      assert s[..k - 1] == Hex(a / 16, k - 1) && t[..k - 1] == Hex(b / 16, k - 1);
      assert s[k - 1] == DIGITS[a % 16] && t[k - 1] == DIGITS[b % 16];
      DigitsDiffer(a % 16, b % 16);
      HexInjective(a / 16, b / 16, k - 1);
    }
  }

  lemma DigitsDiffer(i: nat, j: nat)
    requires i < 16 && j < 16 && DIGITS[i] == DIGITS[j]
    ensures i == j
  {
  }

  function NamespaceName(h: Hash): string { "ns_" + Hex(h, 8) }
  function VethName(h: Hash): string { "veth0_" + Hex(h, 8) }

  /** Names of suffixes that differ differ, and a namespace's name passes the check of the state file. */
  lemma NamesApart(a: Hash, b: Hash)
    requires a < Power16(8) && b < Power16(8)
    ensures NamespaceName(a) == NamespaceName(b) <==> a == b
    ensures VethName(a) == VethName(b) <==> a == b
    ensures NsName(NamespaceName(a))
  {
    assert NamespaceName(a)[3..] == Hex(a, 8) && NamespaceName(b)[3..] == Hex(b, 8);
    assert VethName(a)[6..] == Hex(a, 8) && VethName(b)[6..] == Hex(b, 8);
    if NamespaceName(a) == NamespaceName(b) || VethName(a) == VethName(b) {
      HexInjective(a, b, 8);
    }
  }

  // -------------------------------------------------------------- a record as a file

  /** The parts of the file the record does not carry: texts of subnets, logs, times, pids of adoptions. */
  datatype Details = Details(netText: nat -> string, log: Binding -> string, created: Binding -> string,
                             pids: Adoption -> seq<int>, adopted: Adoption -> string, version: int,
                             forward: Option<string>)

  /** str() of a pool subnet reads back as that subnet. */
  ghost predicate NetsRead(lib: Lib, d: Details) {
    forall n: nat | 1 <= n <= 254 :: lib.network(d.netText(n)) == Some(PoolNet(n))
  }

  function EntryOf(lib: Lib, d: Details, b: Binding): BindingEntry {
    BindingEntry(b.iface, b.app, lib.basename(b.app), NamespaceName(b.ns), d.netText(b.net), b.table, b.priority,
          if b.separate then "separate" else "default", d.log(b), d.created(b),
              if b.pid == None then None else Some(b.pid.value))
  }

  function AdoptedOf(lib: Lib, d: Details, a: Adoption): AdoptionEntry {
    AdoptionEntry(a.id, a.iface, a.app, lib.basename(a.app), a.slot, a.group, a.mark, a.table, a.priority, a.uid,
        d.pids(a), d.adopted(a))
  }

  function FileOf(lib: Lib, d: Details, r: Saved): Content {
    Content(d.version, map i | i in r.subnets :: d.netText(r.subnets[i]),
            seq(|r.bindings|, k requires 0 <= k < |r.bindings| => EntryOf(lib, d, r.bindings[k])), d.forward,
            seq(|r.adoptions|, k requires 0 <= k < |r.adoptions| => AdoptedOf(lib, d, r.adoptions[k])),
            r.dns, r.limits)
  }

  /** The suffixes in use have eight hex digits, and the interfaces pass the file's check of their names. */
  ghost predicate NamesChecked(nm: Naming) { forall i | i in nm.known :: IfaceName(i) && nm.hash(i) < Power16(8) }

  lemma EntryIsValid(nm: Naming, d: Details, r: Saved, b: Binding)
    requires NamesChecked(nm) && NetsRead(nm.lib, d) && Good(nm, r) && Stored(nm, r) && b in r.bindings
    ensures ValidBinding(nm.lib, EntryOf(nm.lib, d, b))
  {
    assert Derived(nm, r, b);
    IndexRoundTrip(b.net);
    IndexOfInverse(PoolNet(b.net));
    NamesApart(b.ns, b.ns);
  }

  lemma AdoptedIsValid(nm: Naming, d: Details, r: Saved, a: Adoption)
    requires NamesChecked(nm) && Good(nm, r) && Stored(nm, r) && a in r.adoptions
    ensures ValidAdoption(nm.lib, AdoptedOf(nm.lib, d, a))
  {
  }

  lemma FileIsValid(nm: Naming, d: Details, r: Saved)
    requires NamesChecked(nm) && NetsRead(nm.lib, d) && Good(nm, r) && Stored(nm, r)
    ensures ValidContent(nm.lib, FileOf(nm.lib, d, r))
  {
    var c := FileOf(nm.lib, d, r);
    forall i | i in r.subnets ensures IfaceName(i) && PoolText(nm.lib, d.netText(r.subnets[i])) {
      IndexRoundTrip(r.subnets[i]);
      IndexOfInverse(PoolNet(r.subnets[i]));
    }
    forall k | 0 <= k < |r.bindings| ensures ValidBinding(nm.lib, EntryOf(nm.lib, d, r.bindings[k])) {
      EntryIsValid(nm, d, r, r.bindings[k]);
    }
    forall k | 0 <= k < |r.adoptions| ensures ValidAdoption(nm.lib, AdoptedOf(nm.lib, d, r.adoptions[k])) {
      AdoptedIsValid(nm, d, r, r.adoptions[k]);
    }
  }

  /** Loading what was saved for this record returns the same state, whatever the details beside it are. */
  ghost predicate Survives(nm: Naming, r: Saved) {
    forall d: Details | NetsRead(nm.lib, d) ::
      Load(nm.lib, Some(Print(FileOf(nm.lib, d, r)))) == FileOf(nm.lib, d, r)
  }

  /** Every record of the invariant survives saving and loading. */
  lemma EngineStatesSurvive(nm: Naming, r: Saved)
    requires Reliable(nm.lib) && NamesChecked(nm) && Good(nm, r) && Stored(nm, r)
    ensures Survives(nm, r)
  {
    forall d: Details | NetsRead(nm.lib, d)
      ensures Load(nm.lib, Some(Print(FileOf(nm.lib, d, r)))) == FileOf(nm.lib, d, r)
    {
      FileIsValid(nm, d, r);
      SavedIsLoaded(nm.lib, FileOf(nm.lib, d, r));
    }
  }

  lemma NetTextsDiffer(lib: Lib, d: Details, m: nat, n: nat)
    requires NetsRead(lib, d) && 1 <= m <= 254 && 1 <= n <= 254 && d.netText(m) == d.netText(n)
    ensures m == n
  {
  }

  lemma EntryTells(nm: Naming, d: Details, r: Saved, s: Saved, b: Binding, c: Binding)
    requires NetsRead(nm.lib, d) && Good(nm, r) && Good(nm, s) && b in r.bindings && c in s.bindings
    requires EntryOf(nm.lib, d, b) == EntryOf(nm.lib, d, c)
    ensures b == c
  {
  }

  lemma SubnetsTell(nm: Naming, d: Details, r: Saved, s: Saved)
    requires NetsRead(nm.lib, d) && Good(nm, r) && Good(nm, s)
    requires FileOf(nm.lib, d, r).subnets == FileOf(nm.lib, d, s).subnets
    ensures r.subnets == s.subnets
  {
    var m, m' := FileOf(nm.lib, d, r).subnets, FileOf(nm.lib, d, s).subnets;
    assert m.Keys == r.subnets.Keys && m'.Keys == s.subnets.Keys;
    forall i | i in r.subnets ensures i in s.subnets && r.subnets[i] == s.subnets[i] {
      assert i in m' && m[i] == m'[i];
      NetTextsDiffer(nm.lib, d, r.subnets[i], s.subnets[i]);
    }
  }

  /** The file tells the record: no two records of the invariant are saved alike. */
  lemma FileTellsRecord(nm: Naming, d: Details, r: Saved, s: Saved)
    requires NetsRead(nm.lib, d) && Good(nm, r) && Good(nm, s) && FileOf(nm.lib, d, r) == FileOf(nm.lib, d, s)
    ensures r == s
  {
    SubnetsTell(nm, d, r, s);
    var f, g := FileOf(nm.lib, d, r), FileOf(nm.lib, d, s);
    assert |f.bindings| == |r.bindings| && |g.bindings| == |s.bindings|;
    assert |f.adoptions| == |r.adoptions| && |g.adoptions| == |s.adoptions|;
    forall k | 0 <= k < |r.bindings| ensures r.bindings[k] == s.bindings[k] {
      assert f.bindings[k] == g.bindings[k];
      EntryTells(nm, d, r, s, r.bindings[k], s.bindings[k]);
    }
    forall k | 0 <= k < |r.adoptions| ensures r.adoptions[k] == s.adoptions[k] {
      assert f.adoptions[k] == g.adoptions[k];
      assert GoodAdoption(r.adoptions[k]) && GoodAdoption(s.adoptions[k]);
    }
  }
}
