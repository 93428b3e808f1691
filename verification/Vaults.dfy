/** The undo history: the version store together with the shadow directory and the clock. */
module Vaults {
  import opened CowTypes
  import opened ShadowNames
  import opened ShadowCopy
  import opened VersionLists

  /**
   * `shadow` maps full paths to file contents; `clock` is the latest time that was read; `attached` is
   * `cowfs_shadow_dirpath_valid`, set when a mount finds its shadow directory and cleared by an unmount.
   */
  datatype Vault = Vault(root: string, store: Store, shadow: map<string, Bytes>, clock: nat, attached: bool)

  /**
   * What the surroundings decide during one capture: the time, the two allocations and the copy. `stuck` are the
   * shadow files that cannot be removed this time, for want of credentials or because the lookup or the unlink fails.
   */
  datatype CapEnv = CapEnv(ts: nat, alloc: bool, copy: CopyEnv, record: bool, stuck: set<string>)

  datatype VaultEvent =
    | Idle
    | Capture(ino: nat, op: Op, name: string, content: Bytes, stat: Stat, withData: bool, cap: CapEnv)
    | Gc(now: nat, window: nat, stuck: set<string>)
    | MountUp
    | MountDown

  // ---------------------------------------------------------------- the operations

  /** The shadow files that a removal gets at: none without a live mount, otherwise all but the stuck ones. */
  datatype Reach = Nothing | Except(stuck: set<string>)

  function ReachOf(attached: bool, stuck: set<string>): Reach {
    if attached then Except(stuck) else Nothing
  }

  predicate Reaches(reach: Reach, p: string) {
    reach.Except? && p !in reach.stuck
  }

  /** `cowfs_version_free`: the version is gone either way, its shadow file if the removal gets at it. */
  function Free(shadow: map<string, Bytes>, root: string, v: Version, reach: Reach): map<string, Bytes> {
    if v.hasData && Reaches(reach, RemovalTarget(root, v.path)) then shadow - {RemovalTarget(root, v.path)} else shadow
  }

  /** `cowfs_version_add`, with the freeing of the evicted version; without a record the version is lost. */
  function Publish(va: Vault, ino: nat, v: Version, record: bool, stuck: set<string>): Vault {
    if ino !in va.store && !record then va
    else
      var l := ListOf(va.store, ino);
      var shadow := match Evicted(l)
                    case None => va.shadow
                    case Some(o) => Free(va.shadow, va.root, o, ReachOf(va.attached, stuck));
      va.(store := va.store[ino := Insert(l, v)], shadow := shadow)
  }

  /** `p` is the shadow file of a version that a collection with this cutoff detaches. */
  ghost predicate Doomed(m: Store, root: string, cutoff: nat, p: string) {
    exists ino, v :: ino in m && v in m[ino] && v.ts < cutoff && v.hasData && RemovalTarget(root, v.path) == p
  }

  ghost function Sweep(shadow: map<string, Bytes>, m: Store, root: string, cutoff: nat, reach: Reach)
    : map<string, Bytes>
  {
    map p | p in shadow && !(Doomed(m, root, cutoff, p) && Reaches(reach, p)) :: shadow[p]
  }

  predicate Legal(va: Vault, e: VaultEvent) {
    match e
    case Idle => true
    case Capture(ino, op, name, content, stat, withData, cap) =>
      && ino < U64_RANGE
      && (cap.alloc ==> va.clock < cap.ts < U64_RANGE)
      && (withData ==> CopyLegal(content, cap.copy))
      && (op == OpWrite || op == OpUnlink ==> withData)
      && (op == OpRename ==> !withData)
      && (op == OpUnlink || op == OpRename ==> LegalName(name))
    case Gc(now, window, _) => va.clock <= now < U64_RANGE
    case MountUp => true
    case MountDown => true
  }

  function NewVersion(va: Vault, e: VaultEvent): Version
    requires e.Capture?
  {
    Version(e.cap.ts, e.op, if e.withData then MakePath(va.root, e.ino, e.cap.ts) else "", e.name, e.stat, e.withData)
  }

  /** The vault just before a capture publishes: the clock has been read and the copy has been made. */
  function Copied(va: Vault, e: VaultEvent): Vault
    requires e.Capture? && Legal(va, e)
  {
    var timed := va.(clock := e.cap.ts);
    if !e.withData then timed
    else match Copy(e.content, e.cap.copy).1
         case None => timed
         case Some(b) => timed.(shadow := timed.shadow[MakePath(va.root, e.ino, e.cap.ts) := b])
  }

  /** What a capture publishes, if anything. */
  function Published(va: Vault, e: VaultEvent): Option<Version>
    requires e.Capture? && Legal(va, e)
  {
    var v := NewVersion(va, e);
    if !e.cap.alloc then None
    else if !e.withData || Copy(e.content, e.cap.copy).0 == 0 then Some(v)
    else if e.op == OpSetattr then Some(v.(path := "", hasData := false))
    else None
  }

  /**
   * One capture: allocate, copy if there is data to save, publish. A failed copy drops the version,
   * except that `cowfs_setattr` publishes it without data; a partial shadow file is left behind either way.
   */
  function DoCapture(va: Vault, e: VaultEvent): Vault
    requires e.Capture? && Legal(va, e)
  {
    if !e.cap.alloc then va
    else match Published(va, e)
         case None => Copied(va, e)
         case Some(v) => Publish(Copied(va, e), e.ino, v, e.cap.record, e.cap.stuck)
  }

  ghost function VaultStep(va: Vault, e: VaultEvent): Vault
    requires Legal(va, e)
  {
    match e
    case Idle => va
    case Capture(_, _, _, _, _, _, _) => DoCapture(va, e)
    case Gc(now, window, stuck) =>
      var c, reach := Cutoff(now, window), ReachOf(va.attached, stuck);
      va.(store := Collect(va.store, c), shadow := Sweep(va.shadow, va.store, va.root, c, reach), clock := now)
    case MountUp => va.(attached := true)
    case MountDown => va.(attached := false)
  }

  // ---------------------------------------------------------------- the invariant

  /** Kind, data and name agree; the shadow file of a version with data exists under the version's own name. */
  ghost predicate VersionOk(va: Vault, ino: nat, v: Version) {
    && 0 < v.ts <= va.clock
    && (v.op == OpWrite || v.op == OpUnlink ==> v.hasData)
    && (v.op == OpRename ==> !v.hasData)
    && (v.op == OpUnlink || v.op == OpRename ==> LegalName(v.name))
    && (v.hasData <==> v.path != "")
    && (v.hasData ==> v.path == MakePath(va.root, ino, v.ts) && v.path in va.shadow)
  }

  ghost predicate OneOwner(m: Store) {
    forall i, j, a, b :: i in m && j in m && a in m[i] && b in m[j] && a.ts == b.ts ==> i == j
  }

  ghost predicate VaultInv(va: Vault) {
    && ShortRoot(va.root) && va.clock < U64_RANGE
    && (forall ino :: ino in va.store ==> ino < U64_RANGE && |va.store[ino]| <= MAX_VERSIONS)
    && (forall ino :: ino in va.store ==> Descending(va.store[ino]))
    && (forall ino, v :: ino in va.store && v in va.store[ino] ==> VersionOk(va, ino, v))
    && OneOwner(va.store)
  }

  /** A removal can only hit the file of the version it was asked to remove. */
  lemma TargetIsOwn(va: Vault, i: nat, a: Version, j: nat, b: Version)
    requires ShortRoot(va.root) && va.clock < U64_RANGE && i < U64_RANGE && j < U64_RANGE
    requires VersionOk(va, i, a) && VersionOk(va, j, b) && a.hasData && b.hasData
    requires RemovalTarget(va.root, a.path) == b.path
    ensures i == j && a.ts == b.ts
  {
    ShortRootFits(va.root, i, a.ts);
    ShortRootFits(va.root, j, b.ts);
    RemovalHitsTheCopy(va.root, i, a.ts);
    PathsDistinct(va.root, i, a.ts, j, b.ts);
  }

  /** A timestamp names one version in the whole store. */
  lemma SameTime(va: Vault, i: nat, a: Version, j: nat, b: Version)
    requires VaultInv(va) && i in va.store && j in va.store && a in va.store[i] && b in va.store[j]
    requires a.ts == b.ts
    ensures i == j && a == b
  {
    var l := va.store[i];
    var p :| 0 <= p < |l| && l[p] == a;
    var q :| 0 <= q < |l| && l[q] == b;
    assert p < q || q < p || p == q;
  }

  lemma FreeOther(shadow: map<string, Bytes>, root: string, o: Version, reach: Reach, p: string)
    requires p in shadow && (o.hasData ==> RemovalTarget(root, o.path) != p)
    ensures p in Free(shadow, root, o, reach) && Free(shadow, root, o, reach)[p] == shadow[p]
  {
  }

  /** Freeing one version leaves the shadow file of every other version alone. */
  lemma FreeKeeps(va: Vault, i: nat, o: Version, j: nat, v: Version, reach: Reach)
    requires ShortRoot(va.root) && va.clock < U64_RANGE && i < U64_RANGE && j < U64_RANGE
    requires VersionOk(va, i, o) && VersionOk(va, j, v) && v.hasData
    requires i != j || o.ts != v.ts
    ensures v.path in Free(va.shadow, va.root, o, reach)
    ensures Free(va.shadow, va.root, o, reach)[v.path] == va.shadow[v.path]
  {
    if o.hasData && RemovalTarget(va.root, o.path) == v.path {
      TargetIsOwn(va, i, o, j, v);
      assert false;
    }
    FreeOther(va.shadow, va.root, o, reach, v.path);
  }

  /** After a full list dropped its last version, that version is no longer on any list. */
  lemma InsertDrops(l: seq<Version>, v: Version, w: Version)
    requires Descending(l) && w in Insert(l, v) && w != v
    ensures w in l
    ensures Evicted(l).Some? ==> w != Evicted(l).value
  {
    var k :| 0 <= k < |Insert(l, v)| && Insert(l, v)[k] == w;
    assert l[k - 1] == w;
  }

  /** What publishing needs of a version: well formed and newer than everything stored. */
  ghost predicate Fresh(va: Vault, ino: nat, v: Version) {
    && ino < U64_RANGE && VersionOk(va, ino, v)
    && forall i, w :: i in va.store && w in va.store[i] ==> w.ts < v.ts
  }

  /** Publishing puts one version on the list of its inode and nothing else on any list. */
  lemma PublishMembers(va: Vault, ino: nat, v: Version, record: bool, stuck: set<string>, j: nat, w: Version)
    requires VaultInv(va)
    requires j in Publish(va, ino, v, record, stuck).store && w in Publish(va, ino, v, record, stuck).store[j]
    ensures (j == ino && w == v) || (j in va.store && w in va.store[j])
  {
    if j == ino && w != v && (ino in va.store || record) {
      InsertDrops(ListOf(va.store, ino), v, w);
    }
  }

  /** Versions that stay on their list keep their shadow file, unchanged. */
  lemma PublishKeepsFile(va: Vault, ino: nat, v: Version, record: bool, stuck: set<string>, j: nat, w: Version)
    requires VaultInv(va) && Fresh(va, ino, v)
    requires j in va.store && w in va.store[j] && w.hasData
    requires w in Publish(va, ino, v, record, stuck).store[j]
    ensures var r := Publish(va, ino, v, record, stuck); w.path in r.shadow && r.shadow[w.path] == va.shadow[w.path]
  {
    var l := ListOf(va.store, ino);
    if Evicted(l).Some? && (ino in va.store || record) {
      var o := Evicted(l).value;
      assert o in va.store[ino];
      if j == ino {
        InsertDrops(l, v, w);
      }
      if j == ino && o.ts == w.ts {
        SameTime(va, ino, o, j, w);
      }
      FreeKeeps(va, ino, o, j, w, ReachOf(va.attached, stuck));
    }
  }

  /** The file of a version that is published survives the freeing of the version it pushed out. */
  lemma PublishKeepsOwnFile(va: Vault, ino: nat, v: Version, record: bool, stuck: set<string>)
    requires VaultInv(va) && Fresh(va, ino, v) && v.hasData
    ensures var r := Publish(va, ino, v, record, stuck); v.path in r.shadow && r.shadow[v.path] == va.shadow[v.path]
  {
    var l := ListOf(va.store, ino);
    if Evicted(l).Some? {
      var o := Evicted(l).value;
      assert o in va.store[ino];
      FreeKeeps(va, ino, o, ino, v, ReachOf(va.attached, stuck));
    }
  }

  lemma PublishVersionOk(va: Vault, ino: nat, v: Version, record: bool, stuck: set<string>, j: nat, w: Version)
    requires VaultInv(va) && Fresh(va, ino, v)
    requires j in Publish(va, ino, v, record, stuck).store && w in Publish(va, ino, v, record, stuck).store[j]
    ensures VersionOk(Publish(va, ino, v, record, stuck), j, w)
  {
    PublishMembers(va, ino, v, record, stuck, j, w);
    if j == ino && w == v {
      if v.hasData { PublishKeepsOwnFile(va, ino, v, record, stuck); }
    } else {
      assert VersionOk(va, j, w);
      if w.hasData { PublishKeepsFile(va, ino, v, record, stuck, j, w); }
    }
  }

  lemma PublishOneOwner(va: Vault, ino: nat, v: Version, record: bool, stuck: set<string>)
    requires VaultInv(va) && Fresh(va, ino, v)
    ensures OneOwner(Publish(va, ino, v, record, stuck).store)
  {
    var m := Publish(va, ino, v, record, stuck).store;
    forall i, j, a: Version, b: Version | i in m && j in m && a in m[i] && b in m[j] && a.ts == b.ts ensures i == j {
      PublishMembers(va, ino, v, record, stuck, i, a);
      PublishMembers(va, ino, v, record, stuck, j, b);
    }
  }

  lemma PublishLists(va: Vault, ino: nat, v: Version, record: bool, stuck: set<string>, j: nat)
    requires VaultInv(va) && Fresh(va, ino, v) && j in Publish(va, ino, v, record, stuck).store
    ensures var l := Publish(va, ino, v, record, stuck).store[j]; |l| <= MAX_VERSIONS && Descending(l)
    ensures j < U64_RANGE
  {
    if j == ino && (ino in va.store || record) {
      forall w | w in ListOf(va.store, ino) ensures w.ts < v.ts {
        assert ino in va.store && w in va.store[ino];
      }
      DescendingInsert(ListOf(va.store, ino), v);
    }
  }

  lemma PublishInv(va: Vault, ino: nat, v: Version, record: bool, stuck: set<string>)
    requires VaultInv(va) && Fresh(va, ino, v)
    ensures VaultInv(Publish(va, ino, v, record, stuck))
  {
    var r := Publish(va, ino, v, record, stuck);
    forall j | j in r.store ensures j < U64_RANGE && |r.store[j]| <= MAX_VERSIONS && Descending(r.store[j]) {
      PublishLists(va, ino, v, record, stuck, j);
    }
    forall j, w | j in r.store && w in r.store[j] ensures VersionOk(r, j, w) {
      PublishVersionOk(va, ino, v, record, stuck, j, w);
    }
    PublishOneOwner(va, ino, v, record, stuck);
    assert r.root == va.root && r.clock == va.clock;
  }

  // ---------------------------------------------------------------- every step keeps the invariant

  /** A new shadow file never takes the name of a stored version's file. */
  lemma NewPathIsFree(va: Vault, e: VaultEvent, j: nat, w: Version)
    requires e.Capture? && Legal(va, e) && e.cap.alloc
    requires VaultInv(va) && j in va.store && w in va.store[j] && w.hasData
    ensures w.path != MakePath(va.root, e.ino, e.cap.ts)
  {
    assert VersionOk(va, j, w);
    if w.path == MakePath(va.root, e.ino, e.cap.ts) {
      ShortRootFits(va.root, j, w.ts);
      ShortRootFits(va.root, e.ino, e.cap.ts);
      PathsDistinct(va.root, j, w.ts, e.ino, e.cap.ts);
    }
  }

  lemma CopiedInv(va: Vault, e: VaultEvent)
    requires e.Capture? && Legal(va, e) && e.cap.alloc && VaultInv(va)
    ensures VaultInv(Copied(va, e))
    ensures forall j, w :: j in va.store && w in va.store[j] && w.hasData ==>
              w.path in Copied(va, e).shadow && Copied(va, e).shadow[w.path] == va.shadow[w.path]
  {
    var r := Copied(va, e);
    forall j, w | j in va.store && w in va.store[j]
      ensures VersionOk(r, j, w)
      ensures w.hasData ==> w.path in r.shadow && r.shadow[w.path] == va.shadow[w.path]
    {
      assert VersionOk(va, j, w);
      if w.hasData { NewPathIsFree(va, e, j, w); }
    }
  }

  lemma PublishedIsFresh(va: Vault, e: VaultEvent)
    requires e.Capture? && Legal(va, e) && VaultInv(va) && Published(va, e).Some?
    ensures Fresh(Copied(va, e), e.ino, Published(va, e).value)
  {
    var r, v := Copied(va, e), Published(va, e).value;
    ShortRootFits(va.root, e.ino, e.cap.ts);
    if v.hasData {
      assert Copy(e.content, e.cap.copy).1.Some?;
    }
    forall i, w | i in r.store && w in r.store[i] ensures w.ts < v.ts {
      assert VersionOk(va, i, w);
    }
  }

  lemma SweepSpares(va: Vault, cutoff: nat, j: nat, w: Version)
    requires VaultInv(va) && j in va.store && w in va.store[j] && w.hasData && w.ts >= cutoff
    ensures w.path in va.shadow && !Doomed(va.store, va.root, cutoff, w.path)
  {
    assert VersionOk(va, j, w);
    if Doomed(va.store, va.root, cutoff, w.path) {
      var i, v :| i in va.store && v in va.store[i] && v.ts < cutoff && v.hasData
                  && RemovalTarget(va.root, v.path) == w.path;
      assert VersionOk(va, i, v);
      TargetIsOwn(va, i, v, j, w);
    }
  }

  lemma {:induction false} KeepDescending(l: seq<Version>, cutoff: nat)
    requires Descending(l)
    ensures Descending(Keep(l, cutoff))
  {
    KeepIsPrefix(l, cutoff);
  }

  lemma GcInv(va: Vault, now: nat, window: nat, stuck: set<string>)
    requires VaultInv(va) && Legal(va, Gc(now, window, stuck))
    ensures VaultInv(VaultStep(va, Gc(now, window, stuck)))
  {
    var r, c := VaultStep(va, Gc(now, window, stuck)), Cutoff(now, window);
    forall ino | ino in r.store ensures |r.store[ino]| <= MAX_VERSIONS && Descending(r.store[ino]) {
      KeepDescending(va.store[ino], c);
    }
    forall j, w | j in r.store && w in r.store[j] ensures VersionOk(r, j, w) {
      assert VersionOk(va, j, w);
      if w.hasData { SweepSpares(va, c, j, w); }
    }
    CollectOneOwner(va.store, c);
  }

  lemma CollectOneOwner(m: Store, cutoff: nat)
    requires OneOwner(m)
    ensures OneOwner(Collect(m, cutoff))
  {
    var r := Collect(m, cutoff);
    forall i, j, a: Version, b: Version | i in r && j in r && a in r[i] && b in r[j] && a.ts == b.ts ensures i == j {
      assert a in m[i] && b in m[j];
    }
  }

  lemma CaptureInv(va: Vault, e: VaultEvent)
    requires e.Capture? && e.cap.alloc && VaultInv(va) && Legal(va, e)
    ensures VaultInv(VaultStep(va, e))
    ensures VaultStep(va, e).root == va.root && VaultStep(va, e).clock >= va.clock
  {
    CopiedInv(va, e);
    CaptureUnfolds(va, e);
    if Published(va, e).Some? {
      PublishedIsFresh(va, e);
      PublishInv(Copied(va, e), e.ino, Published(va, e).value, e.cap.record, e.cap.stuck);
    }
  }

  lemma CaptureUnfolds(va: Vault, e: VaultEvent)
    requires e.Capture? && e.cap.alloc && Legal(va, e)
    ensures VaultStep(va, e)
         == match Published(va, e)
            case None => Copied(va, e)
            case Some(v) => Publish(Copied(va, e), e.ino, v, e.cap.record, e.cap.stuck)
    ensures VaultStep(va, e).root == va.root && VaultStep(va, e).clock == e.cap.ts > va.clock
  {
  }

  /** A mount or unmount changes nothing that the invariant speaks of. */
  lemma AttachedInv(va: Vault, attached: bool)
    requires VaultInv(va)
    ensures VaultInv(va.(attached := attached))
  {
    var r := va.(attached := attached);
    forall j, w | j in r.store && w in r.store[j] ensures VersionOk(r, j, w) {
      assert VersionOk(va, j, w);
    }
  }

  /** Every step of the vault, failed captures and failed removals included, keeps the invariant. */
  lemma VaultStepInv(va: Vault, e: VaultEvent)
    requires VaultInv(va) && Legal(va, e)
    ensures VaultInv(VaultStep(va, e))
    ensures VaultStep(va, e).root == va.root && VaultStep(va, e).clock >= va.clock
  {
    match e
    case Capture(_, _, _, _, _, _, cap) => if cap.alloc { CaptureInv(va, e); }
    case Gc(now, window, stuck) => GcInv(va, now, window, stuck);
    case MountUp => AttachedInv(va, true);
    case MountDown => AttachedInv(va, false);
    case Idle =>
  }

  // ---------------------------------------------------------------- what a step does to one version

  /** A version that stays in the store keeps its shadow file, byte for byte. */
  lemma ShadowStays(va: Vault, e: VaultEvent, j: nat, w: Version)
    requires VaultInv(va) && Legal(va, e)
    requires j in va.store && w in va.store[j] && w.hasData
    requires w in ListOf(VaultStep(va, e).store, j)
    ensures var r := VaultStep(va, e);
      w.path in r.shadow && w.path in va.shadow && r.shadow[w.path] == va.shadow[w.path]
  {
    assert VersionOk(va, j, w);
    if e.Capture? && e.cap.alloc {
      CopiedInv(va, e);
      if Published(va, e).Some? {
        PublishedIsFresh(va, e);
        PublishKeepsFile(Copied(va, e), e.ino, Published(va, e).value, e.cap.record, e.cap.stuck, j, w);
      }
    } else if e.Gc? {
      SweepSpares(va, Cutoff(e.now, e.window), j, w);
    }
  }

  /** The step puts a version on the list of the inode; a capture that fails on the way does not. */
  predicate Adds(va: Vault, e: VaultEvent, j: nat)
    requires Legal(va, e)
  {
    e.Capture? && e.ino == j && Published(va, e).Some? && (j in va.store || e.cap.record)
  }

  /** The list of one inode after a step. */
  function NextList(va: Vault, e: VaultEvent, j: nat): seq<Version>
    requires Legal(va, e)
  {
    var l := ListOf(va.store, j);
    if Adds(va, e, j) then Insert(l, Published(va, e).value)
    else if e.Gc? then Keep(l, Cutoff(e.now, e.window))
    else l
  }

  lemma StepList(va: Vault, e: VaultEvent, j: nat)
    requires Legal(va, e)
    ensures ListOf(VaultStep(va, e).store, j) == NextList(va, e, j)
  {
  }

  /** A step that adds nothing to the list and expires none of its versions keeps it. */
  lemma ListStays(va: Vault, e: VaultEvent, j: nat)
    requires Legal(va, e) && !Adds(va, e, j)
    requires e.Gc? ==> forall v :: v in ListOf(va.store, j) ==> v.ts >= Cutoff(e.now, e.window)
    ensures ListOf(VaultStep(va, e).store, j) == ListOf(va.store, j)
  {
    StepList(va, e, j);
    if e.Gc? {
      KeepAll(ListOf(va.store, j), Cutoff(e.now, e.window));
    }
  }

  /** A version appears only by a capture of its inode, and then its shadow file is the copy that was made. */
  lemma AppearsByCapture(va: Vault, e: VaultEvent, j: nat, w: Version)
    requires VaultInv(va) && Legal(va, e)
    requires w in ListOf(VaultStep(va, e).store, j) && w !in ListOf(va.store, j)
    ensures e.Capture? && e.ino == j && Published(va, e) == Some(w)
    ensures w.hasData ==>
      && e.withData && Copy(e.content, e.cap.copy).0 == 0
      && w.path in VaultStep(va, e).shadow
      && Some(VaultStep(va, e).shadow[w.path]) == Copy(e.content, e.cap.copy).1
  {
    StepList(va, e, j);
    if Published(va, e) != Some(w) {
      InsertDrops(ListOf(va.store, j), Published(va, e).value, w);
    }
    if w.hasData {
      CaptureKeepsCopy(va, e);
    }
  }

  /** A version published with data has the copy that was made as its shadow file. */
  lemma CaptureKeepsCopy(va: Vault, e: VaultEvent)
    requires VaultInv(va) && Legal(va, e) && e.Capture?
    requires Published(va, e).Some? && Published(va, e).value.hasData
    ensures e.withData && Copy(e.content, e.cap.copy).0 == 0
    ensures var (p, r) := (Published(va, e).value.path, VaultStep(va, e));
      p in r.shadow && Some(r.shadow[p]) == Copy(e.content, e.cap.copy).1
  {
    CopiedInv(va, e);
    PublishedIsFresh(va, e);
    PublishKeepsOwnFile(Copied(va, e), e.ino, Published(va, e).value, e.cap.record, e.cap.stuck);
  }

  lemma InsertLoses(l: seq<Version>, v: Version, w: Version)
    requires w in l && w !in Insert(l, v)
    ensures Evicted(l) == Some(w)
  {
    assert forall k :: 1 <= k < |Insert(l, v)| ==> Insert(l, v)[k] == l[k - 1];
    var k :| 0 <= k < |l| && l[k] == w;
    assert Insert(l, v) == [v] + (if |l| >= MAX_VERSIONS then l[..|l| - 1] else l);
    assert k == |l| - 1 && |l| >= MAX_VERSIONS;
  }

  /** A version leaves the store in one of two ways only: as the last of a full list, or by expiry. */
  lemma LeavesOnlyBy(va: Vault, e: VaultEvent, j: nat, w: Version)
    requires Legal(va, e)
    requires w in ListOf(va.store, j) && w !in ListOf(VaultStep(va, e).store, j)
    ensures || (Adds(va, e, j) && Evicted(ListOf(va.store, j)) == Some(w))
            || (e.Gc? && w.ts < Cutoff(e.now, e.window))
  {
    StepList(va, e, j);
    if e.Capture? {
      InsertLoses(ListOf(va.store, j), Published(va, e).value, w);
    }
  }

  lemma InsertShifts(l: seq<Version>, v: Version, k: nat)
    requires k < |l| && k + 1 < MAX_VERSIONS
    ensures k + 1 < |Insert(l, v)| && Insert(l, v)[k + 1] == l[k]
  {
  }

  /** A step moves a version at most one place back, and only one that adds to its list moves it at all. */
  lemma Position(va: Vault, e: VaultEvent, j: nat, k: nat) returns (k': nat)
    requires Legal(va, e)
    requires k < |ListOf(va.store, j)|
    requires Adds(va, e, j) ==> k + 1 < MAX_VERSIONS
    requires e.Gc? ==> ListOf(va.store, j)[k].ts >= Cutoff(e.now, e.window)
    ensures k' <= if Adds(va, e, j) then k + 1 else k
    ensures var l := ListOf(VaultStep(va, e).store, j); k' < |l| && l[k'] == ListOf(va.store, j)[k]
  {
    StepList(va, e, j);
    var l := ListOf(va.store, j);
    k' := k;
    if e.Gc? {
      k' := KeepPosition(l, Cutoff(e.now, e.window), k);
    } else if Adds(va, e, j) {
      InsertShifts(l, Published(va, e).value, k);
      k' := k + 1;
    }
  }

  /** A search by timestamp finds each version of a list; a search for 0 finds the newest. */
  lemma FindsEach(va: Vault, ino: nat)
    requires VaultInv(va) && ino in va.store && va.store[ino] != []
    ensures Find(va.store[ino], 0) == Some(va.store[ino][0])
    ensures forall v :: v in va.store[ino] ==> v.ts <= va.store[ino][0].ts && Find(va.store[ino], v.ts) == Some(v)
  {
    var l := va.store[ino];
    assert Descending(l);
    forall v | v in l ensures v.ts > 0 { assert VersionOk(va, ino, v); }
    forall v | v in l ensures Find(l, v.ts) == Some(v) {
      var k :| 0 <= k < |l| && l[k] == v;
      FindByTime(l, k);
    }
    FindByTime(l, 0);
  }

  /**
   * Time order in every reachable state: timestamp 0 finds the newest version of the list, a full list gives up
   * its oldest one, and a collection cuts off exactly a tail of every list.
   */
  lemma TimeOrder(va: Vault, ino: nat, cutoff: nat)
    requires VaultInv(va) && ino in va.store && va.store[ino] != []
    ensures Find(va.store[ino], 0) == Some(va.store[ino][0])
    ensures forall v :: v in va.store[ino] ==> v.ts <= va.store[ino][0].ts
    ensures Evicted(va.store[ino]).Some? ==> forall v :: v in va.store[ino] ==> v.ts >= Evicted(va.store[ino]).value.ts
    ensures var k := |Keep(va.store[ino], cutoff)|;
      && Keep(va.store[ino], cutoff) == va.store[ino][..k]
      && forall i :: k <= i < |va.store[ino]| ==> va.store[ino][i].ts < cutoff
  {
    FindsEach(va, ino);
    if Evicted(va.store[ino]).Some? {
      EvictedIsOldest(va.store[ino]);
    }
    KeepIsPrefix(va.store[ino], cutoff);
  }
}
