/** The version store as the code keeps it: a hash table of per-inode records with a list and a separate counter. */
module VersionStore {
  import opened CowTypes
  import opened ShadowNames
  import opened VersionLists
  import opened Vaults
  import opened ShadowStore

  /** `struct cow_inode_info`. */
  class InodeInfo {
    const lowerIno: nat
    var versions: seq<Version>
    var versionCount: int

    constructor (ino: nat)
      ensures lowerIno == ino && versions == [] && versionCount == 0
    {
      lowerIno := ino;
      versions := [];
      versionCount := 0;
    }

    /** The counter is the length of the list, which never exceeds the cap. */
    ghost predicate Ok()
      reads this
    {
      versionCount == |versions| <= MAX_VERSIONS
    }

    /** The part of `cowfs_version_add` under the lock of the record. */
    method Push(v: Version) returns (oldest: Option<Version>)
      requires Ok()
      modifies this
      ensures Ok() && versions == Insert(old(versions), v)
      ensures oldest == Evicted(old(versions))
    {
      oldest := None;
      if versionCount >= MAX_VERSIONS {
        oldest := Some(versions[|versions| - 1]);
        versions := versions[..|versions| - 1];
        versionCount := versionCount - 1;
      }
      versions := [v] + versions;
      versionCount := versionCount + 1;
    }

    /** The traversal of `cowfs_version_gc` over one list: expired versions are pushed onto the worklist. */
    method Sweep(cutoff: nat, freed: seq<Version>) returns (worklist: seq<Version>)
      requires Ok()
      modifies this
      ensures Ok() && versions == Keep(old(versions), cutoff)
      ensures worklist == Detached(old(versions), cutoff, freed)
    {
      worklist := freed;
      var i := 0;
      ghost var l, p, kept := versions, 0, [];
      while i < |versions|
        invariant p <= |l| && kept == Keep(l[..p], cutoff) && i == |kept|
        invariant versions == kept + l[p..]
        invariant versionCount == |versions| <= MAX_VERSIONS
        invariant Detached(l, cutoff, freed) == Detached(l[p..], cutoff, worklist)
        decreases |l| - p
      {
        CutAt(versions, kept, l, p);
        var v := versions[i];
        KeepNext(l, p, cutoff);
        assert l[p..][1..] == l[p + 1..];
        if v.ts < cutoff {
          versions := versions[..i] + versions[i + 1..];
          versionCount := versionCount - 1;
          worklist := [v] + worklist;
        } else {
          kept := kept + [v];
          i := i + 1;
        }
        p := p + 1;
      }
      assert l[..p] == l;
    }

    /** The inner loop of `cowfs_versions_gc_all`: every version moves to the worklist, the counter is left. */
    method Drain(freed: seq<Version>) returns (worklist: seq<Version>)
      modifies this
      ensures versions == [] && multiset(worklist) == multiset(freed) + multiset(old(versions))
    {
      worklist := freed;
      while versions != []
        invariant multiset(worklist) + multiset(versions) == multiset(freed) + multiset(old(versions))
        decreases |versions|
      {
        assert versions == [versions[0]] + versions[1..];
        worklist := [versions[0]] + worklist;
        versions := versions[1..];
      }
    }
  }

  /** `p` is the shadow file of a stored version. */
  ghost predicate StoredFile(m: Store, root: string, p: string) {
    exists v :: Stored(m, v) && v.hasData && RemovalTarget(root, v.path) == p
  }

  ghost function PickInode(m: Store): (ino: nat)
    requires m != map[]
    ensures ino in m
  {
    assert m.Keys != {};
    var ino :| ino in m.Keys;
    ino
  }

  /** All stored versions, each as often as it is listed. */
  ghost function All(m: Store): multiset<Version>
    decreases |m.Keys|
  {
    if m == map[] then multiset{}
    else
      var ino := PickInode(m);
      assert (m - {ino}).Keys == m.Keys - {ino};
      All(m - {ino}) + multiset(m[ino])
  }

  lemma {:induction false} AllWithout(m: Store, ino: nat)
    requires ino in m
    ensures All(m) == All(m - {ino}) + multiset(m[ino])
    decreases |m.Keys|
  {
    var k := PickInode(m);
    if k != ino {
      assert (m - {k}).Keys == m.Keys - {k} && (m - {ino}).Keys == m.Keys - {ino};
      AllWithout(m - {k}, ino);
      AllWithout(m - {ino}, k);
      assert m - {k} - {ino} == m - {ino} - {k};
    }
  }

  lemma AllUpdate(m: Store, ino: nat, l: seq<Version>)
    requires ino in m
    ensures All(m[ino := l]) + multiset(m[ino]) == All(m) + multiset(l)
  {
    AllWithout(m, ino);
    AllWithout(m[ino := l], ino);
    assert m[ino := l] - {ino} == m - {ino};
  }

  /** Sweeping one list moves versions to the worklist and loses none. */
  lemma SweepConserves(m: Store, ino: nat, cutoff: nat, freed: seq<Version>)
    requires ino in m
    ensures multiset(Detached(m[ino], cutoff, freed)) + All(m[ino := Keep(m[ino], cutoff)]) == multiset(freed) + All(m)
  {
    DetachedIsTheRest(m[ino], cutoff, freed);
    AllUpdate(m, ino, Keep(m[ino], cutoff));
    Exchange(multiset(Detached(m[ino], cutoff, freed)), multiset(Keep(m[ino], cutoff)), multiset(freed),
             multiset(m[ino]), All(m[ino := Keep(m[ino], cutoff)]), All(m));
  }

  lemma Exchange(d: multiset<Version>, k: multiset<Version>, f: multiset<Version>,
                 l: multiset<Version>, after: multiset<Version>, before: multiset<Version>)
    requires d + k == f + l && after + l == before + k
    ensures d + after == f + before
  {
    forall v ensures (d + after)[v] == (f + before)[v] {
      assert (d + k)[v] == (f + l)[v] && (after + l)[v] == (before + k)[v];
    }
  }

  lemma {:induction false} InAll(m: Store, v: Version)
    ensures v in All(m) <==> Stored(m, v)
    decreases |m.Keys|
  {
    if m != map[] {
      var k := PickInode(m);
      var rest := m - {k};
      assert rest.Keys == m.Keys - {k};
      InAll(rest, v);
      if Stored(m, v) && v !in m[k] {
        var i :| i in m && v in m[i];
        assert i in rest && v in rest[i];
      }
      if Stored(rest, v) {
        var i :| i in rest && v in rest[i];
        assert i in m && v in m[i];
      }
    }
  }

  /** The worklist after one list: its expired versions pushed one by one onto `freed`. */
  function Detached(l: seq<Version>, cutoff: nat, freed: seq<Version>): seq<Version> {
    if l == [] then freed
    else Detached(l[1..], cutoff, if l[0].ts < cutoff then [l[0]] + freed else freed)
  }

  /** A list that is being traversed, with the next version taken out or left in. */
  lemma CutAt(vs: seq<Version>, kept: seq<Version>, l: seq<Version>, p: nat)
    requires p <= |l| && vs == kept + l[p..] && |kept| < |vs|
    ensures p < |l| && vs[|kept|] == l[p]
    ensures vs[..|kept|] + vs[|kept| + 1..] == kept + l[p + 1..]
    ensures vs == kept + [l[p]] + l[p + 1..]
  {
  }

  lemma KeepNext(l: seq<Version>, p: nat, cutoff: nat)
    requires p < |l|
    ensures Keep(l[..p + 1], cutoff) == Keep(l[..p], cutoff) + if l[p].ts < cutoff then [] else [l[p]]
  {
    assert l[..p + 1] == l[..p] + [l[p]];
    KeepConcat(l[..p], [l[p]], cutoff);
    assert [l[p]][1..] == [];
  }

  lemma MultisetHead(l: seq<Version>)
    requires l != []
    ensures multiset(l) == multiset{l[0]} + multiset(l[1..])
  {
    assert l == [l[0]] + l[1..];
  }

  /** The worklist gains exactly what the list loses, every version as often as it was listed. */
  lemma {:induction false} DetachedIsTheRest(l: seq<Version>, cutoff: nat, freed: seq<Version>)
    ensures multiset(Detached(l, cutoff, freed)) + multiset(Keep(l, cutoff)) == multiset(freed) + multiset(l)
  {
    if l != [] {
      MultisetHead(l);
      var x, rest := multiset{l[0]}, multiset(l[1..]);
      if l[0].ts < cutoff {
        DetachedIsTheRest(l[1..], cutoff, [l[0]] + freed);
        MultisetPush(l[0], freed);
        assert x + multiset(freed) + rest == multiset(freed) + (x + rest);
      } else {
        DetachedIsTheRest(l[1..], cutoff, freed);
        MultisetPush(l[0], Keep(l[1..], cutoff));
        assert multiset(freed) + (x + rest) == x + (multiset(freed) + rest);
        assert multiset(Detached(l[1..], cutoff, freed)) + (x + multiset(Keep(l[1..], cutoff)))
            == x + (multiset(Detached(l[1..], cutoff, freed)) + multiset(Keep(l[1..], cutoff)));
      }
    }
  }

  lemma MultisetPush(v: Version, l: seq<Version>)
    ensures multiset([v] + l) == multiset{v} + multiset(l)
  {
  }

  /** These are the expired versions. */
  lemma {:induction false} DetachedMembers(l: seq<Version>, cutoff: nat, freed: seq<Version>)
    ensures forall v :: v in Detached(l, cutoff, freed) <==> v in freed || (v in l && v.ts < cutoff)
  {
    if l != [] {
      DetachedMembers(l[1..], cutoff, if l[0].ts < cutoff then [l[0]] + freed else freed);
      assert forall v :: v in l <==> v == l[0] || v in l[1..];
    }
  }

  type Records = map<nat, InodeInfo>

  /** A bucket holds records of its own inodes only, each of them once. */
  ghost predicate BucketOk(hash: nat -> nat, b: nat, bucket: seq<InodeInfo>, recs: Records) {
    && (forall k :: 0 <= k < |bucket| ==>
          var i := bucket[k].lowerIno; i in recs && recs[i] == bucket[k] && hash(i) == b)
    && (forall j, k :: 0 <= j < k < |bucket| ==> bucket[j] != bucket[k])
  }

  /** Every record sits in the bucket of its inode, once, and is the only record of its inode. */
  ghost predicate Placed(hash: nat -> nat, t: seq<seq<InodeInfo>>, recs: Records) {
    && |t| == HASH_BUCKETS
    && (forall ino :: hash(ino) < HASH_BUCKETS)
    && (forall ino :: ino in recs ==> recs[ino].lowerIno == ino && recs[ino] in t[hash(ino)])
    && (forall b :: 0 <= b < |t| ==> BucketOk(hash, b, t[b], recs))
  }

  lemma PlacedInsert(hash: nat -> nat, t: seq<seq<InodeInfo>>, recs: Records, r: InodeInfo)
    requires Placed(hash, t, recs) && r.lowerIno !in recs
    ensures Placed(hash, t[hash(r.lowerIno) := [r] + t[hash(r.lowerIno)]], recs[r.lowerIno := r])
  {
    var b := hash(r.lowerIno);
    var recs' := recs[r.lowerIno := r];
    var t' := t[b := [r] + t[b]];
    forall c | 0 <= c < |t'| ensures BucketOk(hash, c, t'[c], recs') {
      assert BucketOk(hash, c, t[c], recs);
    }
    assert r in t'[b];
    forall ino | ino in recs ensures recs[ino] in t'[hash(ino)] {
      assert recs[ino] in t[hash(ino)];
    }
  }

  lemma PlacedRemove(hash: nat -> nat, t: seq<seq<InodeInfo>>, recs: Records, b: nat)
    requires Placed(hash, t, recs) && b < HASH_BUCKETS && t[b] != []
    ensures t[b][0].lowerIno in recs && recs[t[b][0].lowerIno] == t[b][0]
    ensures Placed(hash, t[b := t[b][1..]], recs - {t[b][0].lowerIno})
  {
    var r := t[b][0];
    var recs', t' := recs - {r.lowerIno}, t[b := t[b][1..]];
    assert BucketOk(hash, b, t[b], recs);
    forall c | 0 <= c < |t'| ensures BucketOk(hash, c, t'[c], recs') {
      assert BucketOk(hash, c, t[c], recs);
    }
    forall ino | ino in recs' ensures recs'[ino] in t'[hash(ino)] {
      assert recs[ino] in t[hash(ino)] && recs[ino] != r;
      assert t[b] == [r] + t[b][1..];
    }
  }

  lemma RecordsHaveChains(hash: nat -> nat, t: seq<seq<InodeInfo>>, recs: Records)
    requires Placed(hash, t, recs)
    ensures forall ino :: ino in recs ==> hash(ino) < |t| && t[hash(ino)] != []
  {
  }

  lemma OverwriteNew(before: Store, m: Store, ino: nat, l: seq<Version>)
    requires m == if ino in before then before else before[ino := []]
    ensures m[ino := l] == before[ino := l] && m[ino] == ListOf(before, ino)
  {
  }

  lemma AddIsPublish(va: Vault, ino: nat, v: Version, alloc: bool, stuck: set<string>)
    ensures ino !in va.store && !alloc ==> Publish(va, ino, v, alloc, stuck) == va
    ensures ino in va.store || alloc ==>
      var l := ListOf(va.store, ino);
      var r := va.(store := va.store[ino := Insert(l, v)]);
      && (Evicted(l).None? ==> Publish(va, ino, v, alloc, stuck) == r)
      && (Evicted(l).Some? ==>
          Publish(va, ino, v, alloc, stuck)
          == r.(shadow := Free(va.shadow, va.root, Evicted(l).value, ReachOf(va.attached, stuck))))
  {
  }

  // ---------------------------------------------------------------- visiting every record

  lemma ProgressStep(m: Store, done: set<nat>, cutoff: nat, ino: nat, freed: seq<Version>)
    requires ino in m && ino !in done
    requires forall v :: v in freed <==> Gone(m, done, cutoff, v)
    ensures Progress(m, done, cutoff)[ino := Keep(m[ino], cutoff)] == Progress(m, done + {ino}, cutoff)
    ensures forall v :: v in Detached(m[ino], cutoff, freed) <==> Gone(m, done + {ino}, cutoff, v)
  {
    DetachedMembers(m[ino], cutoff, freed);
    forall v ensures Gone(m, done + {ino}, cutoff, v) <==> Gone(m, done, cutoff, v) || (v in m[ino] && v.ts < cutoff) {
    }
  }

  /** How far a collection has come: what is left on the lists and what is on the worklist. */
  ghost predicate Swept(before: Store, m: Store, done: set<nat>, cutoff: nat, freed: seq<Version>) {
    && m == Progress(before, done, cutoff)
    && (forall v :: v in freed <==> Gone(before, done, cutoff, v))
    && multiset(freed) + All(m) == All(before)
  }

  lemma SweptNext(before: Store, m: Store, done: set<nat>, cutoff: nat, ino: nat, freed: seq<Version>)
    requires Swept(before, m, done, cutoff, freed) && ino in before && ino !in done
    ensures ino in m && Swept(before, m[ino := Keep(m[ino], cutoff)], done + {ino}, cutoff,
                              Detached(m[ino], cutoff, freed))
  {
    assert m[ino] == before[ino];
    ProgressStep(before, done, cutoff, ino, freed);
    SweepConserves(m, ino, cutoff, freed);
  }

  /** Freeing the versions of a worklist one after the other. */
  function FreeMany(files: map<string, Bytes>, root: string, vs: seq<Version>, reach: Reach): map<string, Bytes> {
    if vs == [] then files else FreeMany(Free(files, root, vs[0], reach), root, vs[1..], reach)
  }

  ghost predicate Hit(root: string, vs: seq<Version>, p: string) {
    exists v :: v in vs && v.hasData && RemovalTarget(root, v.path) == p
  }

  lemma HitNext(root: string, vs: seq<Version>, p: string)
    requires vs != []
    ensures Hit(root, vs, p) <==> (vs[0].hasData && RemovalTarget(root, vs[0].path) == p) || Hit(root, vs[1..], p)
  {
    if Hit(root, vs, p) {
      var v :| v in vs && v.hasData && RemovalTarget(root, v.path) == p;
      assert v == vs[0] || v in vs[1..];
    }
    if Hit(root, vs[1..], p) {
      var v :| v in vs[1..] && v.hasData && RemovalTarget(root, v.path) == p;
      assert v in vs;
    }
  }

  lemma {:induction false} FreeManyAt(files: map<string, Bytes>, root: string, vs: seq<Version>,
                                      reach: Reach, p: string)
    ensures p in FreeMany(files, root, vs, reach) <==> p in files && !(Hit(root, vs, p) && Reaches(reach, p))
    ensures p in FreeMany(files, root, vs, reach) ==> FreeMany(files, root, vs, reach)[p] == files[p]
  {
    if vs != [] {
      FreeManyAt(Free(files, root, vs[0], reach), root, vs[1..], reach, p);
      HitNext(root, vs, p);
    }
  }

  /** It removes the shadow files of the versions with data that a removal gets at, and no others. */
  lemma FreeManyRemoves(files: map<string, Bytes>, root: string, vs: seq<Version>, reach: Reach)
    ensures FreeMany(files, root, vs, reach)
         == map p | p in files && !(Hit(root, vs, p) && Reaches(reach, p)) :: files[p]
  {
    forall p ensures p in FreeMany(files, root, vs, reach) <==> p in files && !(Hit(root, vs, p) && Reaches(reach, p))
      ensures p in FreeMany(files, root, vs, reach) ==> FreeMany(files, root, vs, reach)[p] == files[p]
    {
      FreeManyAt(files, root, vs, reach, p);
    }
  }

  /** The worklist of a complete collection removes exactly the shadow files of the expired versions. */
  lemma FreeManySweeps(files: map<string, Bytes>, root: string, m: Store, done: set<nat>, cutoff: nat,
                       vs: seq<Version>, reach: Reach)
    requires m.Keys <= done && forall v :: v in vs <==> Gone(m, done, cutoff, v)
    ensures FreeMany(files, root, vs, reach) == Vaults.Sweep(files, m, root, cutoff, reach)
    ensures Progress(m, done, cutoff) == Collect(m, cutoff)
  {
    FreeManyRemoves(files, root, vs, reach);
    forall p ensures Hit(root, vs, p) <==> Doomed(m, root, cutoff, p) {
      HitIsDoomed(root, m, done, cutoff, vs, p);
    }
  }

  lemma HitIsDoomed(root: string, m: Store, done: set<nat>, cutoff: nat, vs: seq<Version>, p: string)
    requires m.Keys <= done && forall v :: v in vs <==> Gone(m, done, cutoff, v)
    ensures Hit(root, vs, p) <==> Doomed(m, root, cutoff, p)
  {
    if Hit(root, vs, p) {
      var v :| v in vs && v.hasData && RemovalTarget(root, v.path) == p;
      assert Gone(m, done, cutoff, v);
    }
    if Doomed(m, root, cutoff, p) {
      var ino, v :| ino in m && v in m[ino] && v.ts < cutoff && v.hasData && RemovalTarget(root, v.path) == p;
      assert Gone(m, done, cutoff, v) && v in vs;
    }
  }

  /** The best deleted match among the inodes in `done`. */
  ghost predicate BestOf(m: Store, done: set<nat>, name: string, ts: nat, found: Option<Version>) {
    && (found.Some? ==> Stored(m, found.value) && Matches(found.value, name, ts))
    && forall ino, v :: ino in m && ino in done && v in m[ino] && Matches(v, name, ts) ==>
         found.Some? && v.ts <= found.value.ts
  }

  lemma BestOfAll(m: Store, done: set<nat>, name: string, ts: nat, found: Option<Version>)
    requires BestOf(m, done, name, ts, found) && m.Keys <= done
    ensures IsBest(m, name, ts, found)
  {
  }

  lemma BestOfNext(m: Store, done: set<nat>, ino: nat, name: string, ts: nat,
                   before: Option<Version>, found: Option<Version>)
    requires BestOf(m, done, name, ts, before) && ino in m
    requires found == before || (found.Some? && found.value in m[ino])
    requires found.Some? ==> Matches(found.value, name, ts)
    requires before.Some? ==> found.Some? && before.value.ts <= found.value.ts
    requires forall v :: v in m[ino] && Matches(v, name, ts) ==> found.Some? && v.ts <= found.value.ts
    ensures BestOf(m, done + {ino}, name, ts, found)
  {
  }

  /** The inner loop of `cowfs_version_find_deleted`: one list, from the best match so far. */
  method ScanList(l: seq<Version>, name: string, ts: nat, before: Option<Version>) returns (found: Option<Version>)
    requires before.Some? ==> Matches(before.value, name, ts)
    ensures found == before || (found.Some? && found.value in l)
    ensures found.Some? ==> Matches(found.value, name, ts)
    ensures before.Some? ==> found.Some? && before.value.ts <= found.value.ts
    ensures forall v :: v in l && Matches(v, name, ts) ==> found.Some? && v.ts <= found.value.ts
  {
    found := before;
    for k := 0 to |l|
      invariant found == before || (found.Some? && found.value in l)
      invariant found.Some? ==> Matches(found.value, name, ts)
      invariant before.Some? ==> found.Some? && before.value.ts <= found.value.ts
      invariant forall j :: 0 <= j < k && Matches(l[j], name, ts) ==> found.Some? && l[j].ts <= found.value.ts
    {
      var v := l[k];
      if v.op != OpUnlink {
        continue;
      }
      if v.name != name {
        continue;
      }
      if ts != 0 && v.ts != ts {
        continue;
      }
      if found.None? || v.ts > found.value.ts {
        found := Some(v);
      }
    }
  }

  class VersionTable {
    /** Any hash function into the buckets. */
    const hash: nat -> nat
    const table: array<seq<InodeInfo>>
    /** The record of each inode, whatever bucket it sits in, and what the table means. */
    ghost var records: Records
    ghost var Contents: Store
    ghost var Infos: set<InodeInfo>
    ghost var Chains: seq<seq<InodeInfo>>

    /** The array holds the chains. */
    ghost predicate TableOk()
      reads this, table
    {
      table.Length == |Chains| && forall b :: 0 <= b < |Chains| ==> table[b] == Chains[b]
    }

    /** Records and meaning agree. */
    ghost predicate RecordsOk()
      reads this, Infos
    {
      && Contents.Keys == records.Keys
      && forall ino :: ino in records ==>
           records[ino] in Infos && records[ino].Ok() && records[ino].versions == Contents[ino]
    }

    ghost predicate Valid()
      reads this, table, Infos
    {
      TableOk() && Placed(hash, Chains, records) && RecordsOk()
    }

    constructor (hash: nat -> nat)
      requires forall ino :: hash(ino) < HASH_BUCKETS
      ensures Valid() && Contents == map[] && this.hash == hash
      ensures fresh(table) && Infos == {}
    {
      this.hash := hash;
      table := new seq<InodeInfo>[HASH_BUCKETS](_ => []);
      records, Contents, Infos := map[], map[], {};
      Chains := seq(HASH_BUCKETS, _ => []);
    }

    /** `hash_for_each_possible` with the test on `lower_ino`. */
    method Lookup(ino: nat) returns (info: InodeInfo?)
      requires Valid()
      ensures info == null <==> ino !in records
      ensures info != null ==> info == records[ino]
    {
      var bucket := table[hash(ino)];
      assert BucketOk(hash, hash(ino), bucket, records);
      var k := 0;
      while k < |bucket|
        invariant k <= |bucket|
        invariant forall j :: 0 <= j < k ==> bucket[j].lowerIno != ino
      {
        if bucket[k].lowerIno == ino {
          return bucket[k];
        }
        k := k + 1;
      }
      info := null;
    }

    /** `hash_add` of an empty record. */
    method Link(info: InodeInfo)
      requires Valid() && info.lowerIno !in records && info.Ok() && info.versions == []
      modifies this, table
      ensures Valid() && Infos == old(Infos) + {info}
      ensures records == old(records)[info.lowerIno := info]
      ensures Contents == old(Contents)[info.lowerIno := []]
    {
      var ino := info.lowerIno;
      var b := hash(ino);
      ghost var chains := Chains[b := [info] + Chains[b]];
      ghost var recs := records[ino := info];
      PlacedInsert(hash, Chains, records, info);
      table[b] := [info] + table[b];
      Chains := chains;
      assert TableOk();
      records, Contents, Infos := recs, Contents[ino := []], Infos + {info};
      assert RecordsOk();
    }

    /** `find_or_create_inode_info`; `alloc` tells whether a new record can be allocated. */
    method FindOrCreate(ino: nat, alloc: bool) returns (info: InodeInfo?)
      requires Valid()
      modifies this, table
      ensures Valid() && Infos >= old(Infos) && fresh(Infos - old(Infos))
      ensures info == null <==> ino !in old(Contents) && !alloc
      ensures Contents == if ino !in old(Contents) && alloc then old(Contents)[ino := []] else old(Contents)
      ensures info != null ==> info.lowerIno == ino && records[ino] == info
    {
      info := Lookup(ino);
      if info == null && alloc {
        var created := new InodeInfo(ino);
        Link(created);
        info := created;
      }
    }

    /** `Push` on a record of the table. */
    method PushTo(info: InodeInfo, v: Version) returns (oldest: Option<Version>)
      requires Valid() && info.lowerIno in records && records[info.lowerIno] == info
      modifies info, this`Contents
      ensures Valid() && info.lowerIno in old(Contents)
      ensures Contents == old(Contents)[info.lowerIno := Insert(old(Contents)[info.lowerIno], v)]
      ensures oldest == Evicted(old(Contents)[info.lowerIno])
    {
      oldest := info.Push(v);
      Contents := Contents[info.lowerIno := info.versions];
      forall i | i in records ensures records[i] in Infos && records[i].Ok() && records[i].versions == Contents[i] {
        assert i == info.lowerIno || records[i] != info;
      }
      assert RecordsOk();
    }

    /** `Sweep` on a record of the table. */
    method SweepOne(info: InodeInfo, cutoff: nat, freed: seq<Version>) returns (worklist: seq<Version>)
      requires Valid() && info.lowerIno in records && records[info.lowerIno] == info
      modifies info, this`Contents
      ensures Valid() && info.lowerIno in old(Contents)
      ensures Contents == old(Contents)[info.lowerIno := Keep(old(Contents)[info.lowerIno], cutoff)]
      ensures worklist == Detached(old(Contents)[info.lowerIno], cutoff, freed)
    {
      worklist := info.Sweep(cutoff, freed);
      Contents := Contents[info.lowerIno := info.versions];
      forall i | i in records ensures records[i] in Infos && records[i].Ok() && records[i].versions == Contents[i] {
        assert i == info.lowerIno || records[i] != info;
      }
      assert RecordsOk();
    }

    /** The part of `cowfs_version_add` under the table lock. */
    method AddLocked(ino: nat, v: Version, alloc: bool) returns (err: int, oldest: Option<Version>)
      requires Valid()
      modifies this, table, Infos
      ensures Valid() && Infos >= old(Infos) && fresh(Infos - old(Infos))
      ensures err == if ino in old(Contents) || alloc then 0 else ENOMEM
      ensures err == 0 ==> Contents == old(Contents)[ino := Insert(ListOf(old(Contents), ino), v)]
      ensures err == 0 ==> oldest == Evicted(ListOf(old(Contents), ino))
      ensures err != 0 ==> Contents == old(Contents) && oldest == None
    {
      oldest := None;
      var info := FindOrCreate(ino, alloc);
      if info == null {
        return ENOMEM, oldest;
      }
      ghost var m := Contents;
      OverwriteNew(old(Contents), m, ino, Insert(m[ino], v));
      oldest := PushTo(info, v);
      err := 0;
    }

    /** What the table and the shadow directory mean together. */
    ghost function VaultOf(shadows: ShadowDir, clock: nat): Vault
      reads this, shadows
    {
      Vault(shadows.root, Contents, shadows.files, clock, shadows.attached)
    }

    /** `cowfs_version_add`, with the freeing of the evicted version outside the lock. */
    method Add(ino: nat, v: Version, alloc: bool, stuck: set<string>, shadows: ShadowDir, ghost clock: nat)
      returns (err: int)
      requires Valid()
      modifies this, table, Infos, shadows`files
      ensures Valid() && Infos >= old(Infos) && fresh(Infos - old(Infos))
      ensures err == if ino in old(Contents) || alloc then 0 else ENOMEM
      ensures VaultOf(shadows, clock) == Publish(old(VaultOf(shadows, clock)), ino, v, alloc, stuck)
    {
      var oldest;
      AddIsPublish(VaultOf(shadows, clock), ino, v, alloc, stuck);
      err, oldest := AddLocked(ino, v, alloc);
      if oldest.Some? {
        shadows.FreeVersion(oldest.value, stuck);
      }
    }

    /** `cowfs_version_find`. */
    method FindVersion(ino: nat, ts: nat) returns (found: Option<Version>)
      requires Valid()
      ensures found == Find(ListOf(Contents, ino), ts)
    {
      var info := Lookup(ino);
      if info == null {
        return None;
      }
      var l := info.versions;
      var k := 0;
      while k < |l|
        invariant k <= |l| && Find(l, ts) == Find(l[k..], ts)
      {
        if ts == 0 || l[k].ts == ts {
          return Some(l[k]);
        }
        assert l[k..][1..] == l[k + 1..];
        k := k + 1;
      }
      found := None;
    }

    /** `cowfs_version_list`. */
    method ListVersions(ino: nat, maxCount: nat) returns (out: seq<Version>)
      requires Valid()
      ensures var l := ListOf(Contents, ino); out == l[..if maxCount < |l| then maxCount else |l|]
    {
      out := [];
      var info := Lookup(ino);
      if info != null {
        var l := info.versions;
        var k := 0;
        while k < |l| && k < maxCount
          invariant k <= |l| && k <= maxCount && out == l[..k]
        {
          out := out + [l[k]];
          k := k + 1;
        }
      }
    }

    /** The records visited when a traversal stands before place `k` of bucket `b`. */
    ghost predicate Visited(done: set<nat>, b: nat, k: nat)
      requires |Chains| == HASH_BUCKETS && (b < HASH_BUCKETS ==> k <= |Chains[b]|)
      reads this
    {
      && done <= records.Keys
      && forall ino :: ino in records ==>
           (ino in done <==> hash(ino) < b || (b < HASH_BUCKETS && hash(ino) == b && records[ino] in Chains[b][..k]))
    }

    /** One more place in the chain. */
    lemma VisitedNext(done: set<nat>, b: nat, k: nat)
      requires Placed(hash, Chains, records) && b < HASH_BUCKETS && k < |Chains[b]| && Visited(done, b, k)
      ensures Chains[b][k].lowerIno in records && records[Chains[b][k].lowerIno] == Chains[b][k]
      ensures Chains[b][k].lowerIno !in done
      ensures Visited(done + {Chains[b][k].lowerIno}, b, k + 1)
    {
      assert BucketOk(hash, b, Chains[b], records);
      var info := Chains[b][k];
      assert Chains[b][..k + 1] == Chains[b][..k] + [info];
    }

    /** The end of a chain is the beginning of the next bucket. */
    lemma VisitedBucket(done: set<nat>, b: nat)
      requires Placed(hash, Chains, records) && b < HASH_BUCKETS && Visited(done, b, |Chains[b]|)
      ensures Visited(done, b + 1, 0)
    {
      assert Chains[b][..|Chains[b]|] == Chains[b];
    }

    /** One record of the traversal of `cowfs_version_gc`, under its lock. */
    method SweepRecord(b: nat, k: nat, cutoff: nat, freed: seq<Version>, ghost before: Store, ghost done: set<nat>)
      returns (worklist: seq<Version>, ghost done': set<nat>)
      requires Valid() && b < HASH_BUCKETS && k < |Chains[b]| && Visited(done, b, k)
      requires Swept(before, Contents, done, cutoff, freed) && before.Keys == records.Keys
      modifies Infos, this`Contents
      ensures Valid() && Visited(done', b, k + 1) && Swept(before, Contents, done', cutoff, worklist)
    {
      VisitedNext(done, b, k);
      var info := table[b][k];
      SweptNext(before, Contents, done, cutoff, info.lowerIno, freed);
      worklist := SweepOne(info, cutoff, freed);
      done' := done + {info.lowerIno};
    }

    /** The traversal of one bucket. */
    method SweepBucket(b: nat, cutoff: nat, freed: seq<Version>, ghost before: Store, ghost done: set<nat>)
      returns (worklist: seq<Version>, ghost done': set<nat>)
      requires Valid() && b < HASH_BUCKETS && Visited(done, b, 0)
      requires Swept(before, Contents, done, cutoff, freed) && before.Keys == records.Keys
      modifies Infos, this`Contents
      ensures Valid() && Visited(done', b + 1, 0) && Swept(before, Contents, done', cutoff, worklist)
    {
      worklist, done' := freed, done;
      var k := 0;
      while k < |table[b]|
        invariant Valid() && k <= |Chains[b]| && Visited(done', b, k)
        invariant Swept(before, Contents, done', cutoff, worklist)
        decreases |Chains[b]| - k
      {
        worklist, done' := SweepRecord(b, k, cutoff, worklist, before, done');
        k := k + 1;
      }
      VisitedBucket(done', b);
    }

    /** The part of `cowfs_version_gc` under the table lock. */
    method SweepAll(cutoff: nat) returns (freed: seq<Version>, ghost done: set<nat>)
      requires Valid()
      modifies Infos, this`Contents
      ensures Valid() && old(Contents).Keys <= done
      ensures Swept(old(Contents), Contents, done, cutoff, freed)
    {
      freed, done := [], {};
      var b := 0;
      assert Contents == Progress(old(Contents), done, cutoff);
      while b < HASH_BUCKETS
        invariant b <= HASH_BUCKETS && Valid() && Visited(done, b, 0)
        invariant Swept(old(Contents), Contents, done, cutoff, freed)
      {
        freed, done := SweepBucket(b, cutoff, freed, old(Contents), done);
        b := b + 1;
      }
    }

    /** The loop that frees a worklist outside the locks. */
    method FreeWorklist(freed: seq<Version>, stuck: set<string>, shadows: ShadowDir)
      modifies shadows`files
      ensures shadows.files == FreeMany(old(shadows.files), shadows.root, freed, ReachOf(shadows.attached, stuck))
    {
      ghost var reach := ReachOf(shadows.attached, stuck);
      var k := 0;
      while k < |freed|
        invariant k <= |freed|
        invariant FreeMany(old(shadows.files), shadows.root, freed, reach)
               == FreeMany(shadows.files, shadows.root, freed[k..], reach)
      {
        shadows.FreeVersion(freed[k], stuck);
        assert freed[k..][1..] == freed[k + 1..];
        k := k + 1;
      }
    }

    /** `cowfs_version_gc` at time `now`: what is dropped is freed, whether or not its shadow file can be removed. */
    method Gc(now: nat, window: nat, stuck: set<string>, shadows: ShadowDir)
      requires Valid()
      modifies Infos, this`Contents, shadows`files
      ensures Valid()
      ensures Contents == Collect(old(Contents), Cutoff(now, window))
      ensures shadows.files == Vaults.Sweep(old(shadows.files), old(Contents), shadows.root, Cutoff(now, window),
                                            ReachOf(shadows.attached, stuck))
    {
      var cutoff := (now - window * NSEC_PER_SEC) % U64_RANGE;
      var freed;
      ghost var done;
      freed, done := SweepAll(cutoff);
      FreeManySweeps(shadows.files, shadows.root, old(Contents), done, cutoff, freed, ReachOf(shadows.attached, stuck));
      FreeWorklist(freed, stuck, shadows);
    }

    /** `cowfs_version_find_deleted`. */
    method FindDeletedVersion(name: string, ts: nat) returns (found: Option<Version>)
      requires Valid()
      ensures IsBest(Contents, name, ts, found)
    {
      found := None;
      ghost var done: set<nat> := {};
      var b := 0;
      while b < HASH_BUCKETS
        invariant b <= HASH_BUCKETS && Visited(done, b, 0) && BestOf(Contents, done, name, ts, found)
      {
        var k := 0;
        while k < |table[b]|
          invariant k <= |Chains[b]| && Visited(done, b, k) && BestOf(Contents, done, name, ts, found)
        {
          VisitedNext(done, b, k);
          var info := table[b][k];
          ghost var i := info.lowerIno;
          assert info.versions == Contents[i];
          ghost var before := found;
          found := ScanList(info.versions, name, ts, found);
          BestOfNext(Contents, done, i, name, ts, before, found);
          done := done + {i};
          k := k + 1;
        }
        VisitedBucket(done, b);
        b := b + 1;
      }
      BestOfAll(Contents, done, name, ts, found);
    }

    /** `cowfs_versions_gc_all`, one record: drain it, `hash_del` it, free it. */
    method DrainFirst(b: nat, freed: seq<Version>) returns (worklist: seq<Version>)
      requires Valid() && b < HASH_BUCKETS && Chains[b] != []
      modifies this, table, Infos
      ensures Valid() && Infos == old(Infos) && Chains == old(Chains)[b := old(Chains)[b][1..]]
      ensures multiset(worklist) + All(Contents) == multiset(freed) + All(old(Contents))
    {
      var info := table[b][0];
      assert BucketOk(hash, b, Chains[b], records);
      ghost var i := info.lowerIno;
      assert records[i] == info && info.versions == Contents[i];
      AllWithout(Contents, i);
      worklist := info.Drain(freed);
      Unlink(b);
    }

    /** `hash_del` of the first record of a chain, after it was drained. */
    method Unlink(b: nat)
      requires TableOk() && Placed(hash, Chains, records) && b < HASH_BUCKETS && Chains[b] != []
      requires Contents.Keys == records.Keys
      requires forall j :: j in records && j != Chains[b][0].lowerIno ==>
        records[j] in Infos && records[j].Ok() && records[j].versions == Contents[j]
      modifies this, table
      ensures Valid() && Infos == old(Infos) && Chains == old(Chains)[b := old(Chains)[b][1..]]
      ensures Contents == old(Contents) - {old(Chains)[b][0].lowerIno}
    {
      PlacedRemove(hash, Chains, records, b);
      ghost var i := Chains[b][0].lowerIno;
      table[b] := table[b][1..];
      Chains := Chains[b := Chains[b][1..]];
      records, Contents := records - {i}, Contents - {i};
    }

    /** The part of `cowfs_versions_gc_all` under the table lock. */
    method DrainAll() returns (freed: seq<Version>)
      requires Valid()
      modifies this, table, Infos
      ensures Valid() && Infos == old(Infos) && Contents == map[]
      ensures multiset(freed) == All(old(Contents))
    {
      freed := [];
      var b := 0;
      while b < HASH_BUCKETS
        invariant b <= HASH_BUCKETS && Valid() && Infos == old(Infos)
        invariant forall c :: 0 <= c < b ==> Chains[c] == []
        invariant multiset(freed) + All(Contents) == All(old(Contents))
      {
        while table[b] != []
          invariant Valid() && Infos == old(Infos) && table[b] == Chains[b]
          invariant forall c :: 0 <= c < b ==> Chains[c] == []
          invariant multiset(freed) + All(Contents) == All(old(Contents))
          decreases |table[b]|
        {
          freed := DrainFirst(b, freed);
        }
        b := b + 1;
      }
      RecordsHaveChains(hash, Chains, records);
      assert Contents.Keys == {};
    }

    /** `cowfs_versions_gc_all`: the table is empty and exactly the shadow files removals get at are gone. */
    method GcAll(stuck: set<string>, shadows: ShadowDir)
      requires Valid()
      modifies this, table, Infos, shadows`files
      ensures Valid() && Infos == old(Infos) && Contents == map[]
      ensures forall p ::
        p in shadows.files <==>
        p in old(shadows.files)
        && !(StoredFile(old(Contents), shadows.root, p) && Reaches(ReachOf(shadows.attached, stuck), p))
      ensures forall p :: p in shadows.files ==> shadows.files[p] == old(shadows.files)[p]
    {
      ghost var m, root := Contents, shadows.root;
      var freed := DrainAll();
      FreeManyRemoves(shadows.files, root, freed, ReachOf(shadows.attached, stuck));
      forall v ensures v in freed <==> Stored(m, v) {
        assert v in freed <==> v in multiset(freed);
        InAll(m, v);
      }
      forall p ensures Hit(root, freed, p) <==> StoredFile(m, root, p) {
      }
      FreeWorklist(freed, stuck, shadows);
    }
  }
}
