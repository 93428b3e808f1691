/**
 * What each operation does to names, files, handles and versions, told entry by entry: on every path, and whatever
 * its capture came to.
 */
module Effects {
  import opened CowTypes
  import opened ShadowNames
  import opened ShadowCopy
  import opened VersionLists
  import opened Vaults
  import opened LowerFs
  import opened CowFsModel
  import opened Histories
  import opened Rollbacks
  import opened Leftovers

  // ---------------------------------------------------------------- captures never stand in the way

  predicate Captures(e: Event) {
    e.Write? || e.Unlink? || e.Rename? || e.Setattr?
  }

  /** The same operation with another outcome of its capture. */
  function WithCapture(e: Event, cap: CapEnv): Event
    requires Captures(e)
  {
    e.(cap := cap)
  }

  /** Fail open: what an operation does to the files and the handles is the same whatever its capture came to. */
  lemma FailsOpen(s: Fs, e: Event, cap: CapEnv)
    requires Captures(e) && Enabled(s, e) && Enabled(s, WithCapture(e, cap))
    ensures Step(s, WithCapture(e, cap)).lower == Step(s, e).lower
    ensures Step(s, WithCapture(e, cap)).handles == Step(s, e).handles
  {
  }

  /** Without memory for a version nothing is recorded. */
  lemma NoMemoryNoVersion(s: Fs, e: Event)
    requires Captures(e) && Enabled(s, e) && !e.cap.alloc
    ensures Step(s, e).vault == s.vault
  {
  }

  // ---------------------------------------------------------------- names and files

  /** Every other entry of every directory leads where it led. */
  ghost predicate OtherEntriesStay(before: Lower, after: Lower, moved: set<(string, string)>) {
    && after.dirs.Keys == before.dirs.Keys && after.foreign == before.foreign
    && forall d, n :: (d, n) !in moved ==>
         (HasEntry(after, d, n) <==> HasEntry(before, d, n))
         && (HasEntry(before, d, n) ==> after.dirs[d][n] == before.dirs[d][n])
  }

  /** A successful unlink takes one name away, and nothing else, also when nothing could be saved. */
  lemma UnlinkEffect(s: Fs, e: Event)
    requires Enabled(s, e) && e.Unlink? && e.err == 0
    ensures !HasEntry(Step(s, e).lower, e.dir, e.name)
    ensures OtherEntriesStay(s.lower, Step(s, e).lower, {(e.dir, e.name)})
    ensures Step(s, e).lower.nodes == s.lower.nodes
  {
  }

  /** The two names of a rename lead to the same file already. */
  predicate SameFile(s: Fs, e: Event)
    requires e.Rename? && HasEntry(s.lower, e.dir, e.name)
  {
    HasEntry(s.lower, e.newDir, e.newName) && s.lower.dirs[e.newDir][e.newName] == s.lower.dirs[e.dir][e.name]
  }

  /**
   * A successful rename takes the old name away and makes the new one lead to the file, whether the new name was free
   * or not; if both led to the file already it does nothing.
   */
  lemma RenameEffect(s: Fs, e: Event)
    requires Enabled(s, e) && e.Rename? && e.err == 0
    ensures HasEntry(Step(s, e).lower, e.newDir, e.newName)
    ensures Step(s, e).lower.dirs[e.newDir][e.newName] == s.lower.dirs[e.dir][e.name]
    ensures HasEntry(Step(s, e).lower, e.dir, e.name) <==> SameFile(s, e)
    ensures OtherEntriesStay(s.lower, Step(s, e).lower, {(e.dir, e.name), (e.newDir, e.newName)})
    ensures SameFile(s, e) ==> Step(s, e).lower == s.lower
    ensures Step(s, e).lower.nodes == s.lower.nodes
  {
  }

  /** One file changes, no name and no other file. */
  ghost predicate OnlyFile(before: Lower, after: Lower, ino: nat) {
    && after.dirs == before.dirs && after.foreign == before.foreign && after.nodes.Keys == before.nodes.Keys
    && forall j :: j in before.nodes && j != ino ==> after.nodes[j] == before.nodes[j]
  }

  /**
   * A successful change of attributes sets those that are given and no others; a new size cuts the content off or
   * fills it up with zeros.
   */
  lemma SetattrEffect(s: Fs, e: Event)
    requires Enabled(s, e) && e.Setattr? && e.err == 0
    ensures OnlyFile(s.lower, Step(s, e).lower, e.ino) && e.ino in Step(s, e).lower.nodes
    ensures var (was, now, a) := (s.lower.nodes[e.ino], Step(s, e).lower.nodes[e.ino], e.attr);
      && now.uid == (if a.uid.Some? then a.uid.value else was.uid)
      && now.gid == (if a.gid.Some? then a.gid.value else was.gid)
      && now.mode == (if a.mode.Some? then a.mode.value else was.mode)
      && (a.size.None? ==> now.content == was.content)
      && (a.size.Some? ==>
          && |now.content| == a.size.value
          && forall k :: 0 <= k < |now.content| ==>
               now.content[k] == if k < |was.content| then was.content[k] else 0)
  {
  }

  /** A write changes the content of its file, and only through a handle that is open for writing. */
  lemma WriteEffect(s: Fs, e: Event)
    requires Enabled(s, e) && e.Write?
    ensures var (h, lo) := (s.handles[e.h], Step(s, e).lower);
      && OnlyFile(s.lower, lo, h.ino) && h.ino in lo.nodes
      && lo.nodes[h.ino] == s.lower.nodes[h.ino].(content := lo.nodes[h.ino].content)
      && lo.nodes[h.ino].content == if h.writable then e.after else s.lower.nodes[h.ino].content
  {
  }

  /** What fails below changes no file, nor does anything else but a rollback and what comes from outside. */
  lemma NothingElseChangesFiles(s: Fs, e: Event)
    requires Enabled(s, e) && !e.Write? && !e.RollbackTo? && !e.Create? && !e.Evict?
    requires e.Unlink? || e.Rename? || e.Setattr? ==> e.err != 0
    ensures Step(s, e).lower == s.lower
  {
  }

  /** A file made from outside, and an inode that nothing refers to any more. */
  lemma OutsideEffect(s: Fs, e: Event)
    requires Enabled(s, e) && (e.Create? || e.Evict?)
    ensures e.Create? ==>
      var lo := Step(s, e).lower;
      && OtherEntriesStay(s.lower, lo, {(e.dir, e.name)}) && HasEntry(lo, e.dir, e.name)
      && lo.dirs[e.dir][e.name] == e.ino && lo.nodes == s.lower.nodes[e.ino := e.node]
    ensures e.Evict? ==> Step(s, e).lower == s.lower.(nodes := s.lower.nodes - {e.ino})
  {
  }

  // ---------------------------------------------------------------- handles

  /** The step marks the handle: by its first write, whatever its capture came to, or by a truncate through it. */
  predicate Marks(s: Fs, e: Event, h: nat) {
    || (e.Write? && e.h == h && h in s.handles && s.handles[h].writable)
    || (e.Setattr? && e.err == 0 && e.attr.size.Some? && e.file == Some(h))
  }

  /** A handle comes unmarked with an opening, goes with its release, and is marked exactly by those steps. */
  lemma HandleEffect(s: Fs, e: Event, h: nat)
    requires Enabled(s, e)
    ensures h in Step(s, e).handles <==> (h in s.handles && e != Close(h)) || (e.Open? && e.h == h)
    ensures e.Open? && e.h == h ==> Step(s, e).handles[h] == Handle(e.ino, e.writable, false)
    ensures h in s.handles && e != Close(h) ==>
      Step(s, e).handles[h] == s.handles[h].(snapshotTaken := s.handles[h].snapshotTaken || Marks(s, e, h))
  {
  }

  // ---------------------------------------------------------------- what is recorded

  /** The kind of version that an operation records. */
  function KindOf(e: Event): Op
    requires Captures(e)
  {
    match e
    case Write(_, _, _) => OpWrite
    case Unlink(_, _, _, _) => OpUnlink
    case Rename(_, _, _, _, _, _) => OpRename
    case _ => OpSetattr
  }

  /**
   * A version that appears on a list is of the kind of the operation, carries the time that was read, owner and mode
   * of the moment and, for an unlink or a rename, the old name. It has data exactly for a write, an unlink, or a change
   * of size whose copy succeeded.
   */
  lemma AddedVersion(s: Fs, e: Event, ino: nat, v: Version)
    requires FsInv(s) && Enabled(s, e)
    requires v in ListOf(Step(s, e).vault.store, ino) && v !in ListOf(s.vault.store, ino)
    ensures Captures(e) && e.cap.alloc && ino in s.lower.nodes
    ensures v.op == KindOf(e) && v.ts == e.cap.ts && v.stat == StatOf(s.lower.nodes[ino])
    ensures e.Unlink? || e.Rename? ==> HasEntry(s.lower, e.dir, e.name) && s.lower.dirs[e.dir][e.name] == ino
    ensures e.Unlink? || e.Rename? ==> v.name == e.name
    ensures e.Write? ==> s.handles[e.h].ino == ino && s.handles[e.h].writable && !s.handles[e.h].snapshotTaken
    ensures e.Setattr? ==> e.ino == ino
    ensures v.hasData <==> || e.Write? || e.Unlink?
                           || (e.Setattr? && e.attr.size.Some?
                               && Copy(s.lower.nodes[ino].content, e.cap.copy).0 == 0)
  {
    AppearsByCapture(s.vault, Recorded(s, e), ino, v);
  }

  /** The operation is one that has something to record: all are, but a write only once per handle. */
  predicate WantsVersion(s: Fs, e: Event)
    requires Enabled(s, e) && Captures(e)
  {
    e.Write? ==> s.handles[e.h].writable && !s.handles[e.h].snapshotTaken
  }

  /** The file that the operation is about to change. */
  function FileIn(s: Fs, e: Event): nat
    requires Enabled(s, e) && Captures(e)
  {
    match e
    case Write(h, _, _) => s.handles[h].ino
    case Unlink(dir, name, _, _) => s.lower.dirs[dir][name]
    case Rename(dir, name, _, _, _, _) => s.lower.dirs[dir][name]
    case Setattr(ino, _, _, _, _) => ino
    case _ => 0
  }

  /** The content is about to be lost. */
  predicate WantsData(e: Event) {
    e.Write? || e.Unlink? || (e.Setattr? && e.attr.size.Some?)
  }

  /**
   * Whenever memory and copy allow it the operation is recorded, first on the list of its file; what it is about to
   * destroy is in the shadow file, exactly if no write of the copy was short.
   */
  lemma RecordsWhenItCan(s: Fs, e: Event)
    requires FsInv(s) && Enabled(s, e) && Captures(e) && WantsVersion(s, e)
    requires e.cap.alloc && (e.cap.record || FileIn(s, e) in s.vault.store)
    requires WantsData(e) ==> Copy(s.lower.nodes[FileIn(s, e)].content, e.cap.copy).0 == 0
    ensures var l := ListOf(Step(s, e).vault.store, FileIn(s, e));
      && l != [] && l[0].op == KindOf(e) && l[0].ts == e.cap.ts
      && l[0].stat == StatOf(s.lower.nodes[FileIn(s, e)])
      && (l[0].hasData <==> WantsData(e))
      && (WantsData(e) ==>
          && Saved(Step(s, e).vault, l[0]).Some?
          && (Saved(Step(s, e).vault, l[0]).value == s.lower.nodes[FileIn(s, e)].content
              <==> FullWrites(e.cap.copy.io)))
  {
    var r := Recorded(s, e);
    assert r.Capture? && r.ino == FileIn(s, e) && r.withData == WantsData(e);
    StepList(s.vault, r, r.ino);
    if r.withData {
      CaptureKeepsCopy(s.vault, r);
      CopySucceeds(r.content, r.cap.copy);
    }
  }

  lemma KeepsNewer(l: seq<Version>, cutoff: nat)
    requires Descending(l)
    ensures Keep(l, cutoff) <= l && forall v :: v in l ==> (v in Keep(l, cutoff) <==> v.ts >= cutoff)
  {
    KeepIsPrefix(l, cutoff);
  }

  lemma ListIsDescending(s: Fs, ino: nat)
    requires FsInv(s)
    ensures Descending(ListOf(s.vault.store, ino))
  {
  }

  /** A collection keeps of every list, in order, exactly what is not older than its cutoff. */
  lemma CollectionKeeps(s: Fs, e: Event, ino: nat)
    requires FsInv(s) && Enabled(s, e) && e.Collection?
    ensures var (was, now, c) := (ListOf(s.vault.store, ino), ListOf(Step(s, e).vault.store, ino),
                                  Cutoff(e.now, e.window));
      now <= was && forall v :: v in was ==> (v in now <==> v.ts >= c)
  {
    ListIsDescending(s, ino);
    CollectedList(s, e, ino);
    KeepsNewer(ListOf(s.vault.store, ino), Cutoff(e.now, e.window));
  }

  lemma CollectedList(s: Fs, e: Event, ino: nat)
    requires Enabled(s, e) && e.Collection?
    ensures ListOf(Step(s, e).vault.store, ino) == Keep(ListOf(s.vault.store, ino), Cutoff(e.now, e.window))
  {
    StepList(s.vault, Recorded(s, e), ino);
  }

  /** Nothing but these operations and collections touches the version store or the shadow directory. */
  lemma HistoryChangesOnlyBy(s: Fs, e: Event)
    requires Enabled(s, e) && !Captures(e) && !e.Collection?
    ensures Step(s, e).vault.store == s.vault.store && Step(s, e).vault.shadow == s.vault.shadow
  {
  }

  /** The clock is the time that was read last. */
  lemma ClockEffect(s: Fs, e: Event)
    requires Enabled(s, e) && Recorded(s, e) != Idle
    ensures Captures(e) ==> Step(s, e).vault.clock == if e.cap.alloc then e.cap.ts else s.vault.clock
    ensures e.Collection? ==> Step(s, e).vault.clock == e.now
  {
  }

  // ---------------------------------------------------------------- versions without data

  lemma UndoWithoutData(va: Vault, lo: Lower, dir: string, name: string, v: Version, env: RollbackEnv)
    requires HasEntry(lo, dir, name) && lo.dirs[dir][name] in lo.nodes && RestorePlays(va, v, env)
    requires !v.hasData && v.op != OpUnlink
    ensures var r := Undo(va, lo, dir, name, v, env).1;
      && r.nodes.Keys == lo.nodes.Keys
      && forall j :: j in lo.nodes ==> r.nodes[j].content == lo.nodes[j].content
  {
  }

  /** A rollback to a version without data leaves every content alone, whatever fails in it. */
  lemma NoDataNoContent(s: Fs, path: string, ts: nat, env: RollbackEnv)
    requires FsInv(s) && RollbackLegal(s, path, ts, env)
    requires Resolve(s.lower, path).Some? && Selected(s, path, ts).Some? && !Selected(s, path, ts).value.hasData
    ensures var lo := Rollback(s, path, ts, env).1;
      && lo.nodes.Keys == s.lower.nodes.Keys
      && forall j :: j in s.lower.nodes ==> lo.nodes[j].content == s.lower.nodes[j].content
  {
    if path !in s.lower.foreign {
      RollbackIsUndo(s, path, ts, env);
      UndoWithoutData(s.vault, s.lower, DirOf(path), BaseName(path), Selected(s, path, ts).value, env);
    }
  }

  /**
   * A change of owner or mode saves no content: after any run that keeps its version, a rollback to it leaves the
   * content that the file has by then.
   */
  lemma ChmodKeepsLaterContent(s: Fs, e: Event, es: seq<Event>, path: string, v: Version, env: RollbackEnv)
    requires FsInv(s) && Enabled(s, e) && e.Setattr? && e.attr.size.None? && ValidRun(Step(s, e), es)
    requires v in ListOf(Step(s, e).vault.store, e.ino) && v !in ListOf(s.vault.store, e.ino)
    requires var n := Run(Step(s, e), es);
      && v in ListOf(n.vault.store, e.ino) && Resolve(n.lower, path) == Some(e.ino)
      && RollbackLegal(n, path, v.ts, env)
    ensures !v.hasData
    ensures var (n, ino) := (Run(Step(s, e), es), e.ino);
      && ino in n.lower.nodes && ino in Rollback(n, path, v.ts, env).1.nodes
      && Rollback(n, path, v.ts, env).1.nodes[ino].content == n.lower.nodes[ino].content
  {
    var n := Run(Step(s, e), es);
    AddedVersion(s, e, e.ino, v);
    StepInv(s, e);
    RunInv(Step(s, e), es);
    SelectsByTime(n, path, e.ino, v);
    NoDataNoContent(n, path, v.ts, env);
  }

  /** The rollback to a SETATTR version without data, when it is the newest. */
  lemma AttributesRolledBack(s: Fs, path: string, ino: nat, v: Version, env: RollbackEnv)
    requires FsInv(s) && RollbackLegal(s, path, 0, env) && env.attrErr == 0
    requires path !in s.lower.foreign && Resolve(s.lower, path) == Some(ino)
    requires ListOf(s.vault.store, ino) != [] && ListOf(s.vault.store, ino)[0] == v
    requires v.op == OpSetattr && !v.hasData
    ensures Selected(s, path, 0) == Some(v) && ino in s.lower.nodes
    ensures var n := s.lower.nodes[ino];
      Rollback(s, path, 0, env)
      == (0, SetNode(s.lower, ino, Inode(n.content, v.stat.uid, v.stat.gid, v.stat.mode)))
  {
    SelectsByTime(s, path, ino, v);
  }

  lemma RecordedWithoutCopy(s: Fs, e: Event)
    requires FsInv(s) && Enabled(s, e) && e.Setattr? && e.attr.size.Some? && e.cap.alloc
    requires Copy(s.lower.nodes[e.ino].content, e.cap.copy).0 != 0 && (e.cap.record || e.ino in s.vault.store)
    ensures var l := ListOf(Step(s, e).vault.store, e.ino);
      l != [] && l[0] == Version(e.cap.ts, OpSetattr, "", "", StatOf(s.lower.nodes[e.ino]), false)
  {
    StepList(s.vault, Recorded(s, e), e.ino);
  }

  /**
   * A truncate whose copy fails is still recorded, without data: the rollback to it brings owner and mode back and
   * leaves the truncated content.
   */
  lemma TruncateWithoutCopy(s: Fs, e: Event, path: string, env: RollbackEnv)
    requires FsInv(s) && Enabled(s, e) && e.Setattr? && e.err == 0 && e.attr.size.Some? && e.cap.alloc
    requires Copy(s.lower.nodes[e.ino].content, e.cap.copy).0 != 0 && (e.cap.record || e.ino in s.vault.store)
    requires path !in s.lower.foreign && Resolve(s.lower, path) == Some(e.ino)
    requires RollbackLegal(Step(s, e), path, 0, env) && env.attrErr == 0
    ensures e.ino in Step(s, e).lower.nodes
    ensures var (n, was) := (Step(s, e), s.lower.nodes[e.ino]);
      Rollback(n, path, 0, env)
      == (0, SetNode(n.lower, e.ino, Inode(n.lower.nodes[e.ino].content, was.uid, was.gid, was.mode)))
  {
    var v := Version(e.cap.ts, OpSetattr, "", "", StatOf(s.lower.nodes[e.ino]), false);
    RecordedWithoutCopy(s, e);
    StepInv(s, e);
    SetattrEffect(s, e);
    AttributesRolledBack(Step(s, e), path, e.ino, v, env);
  }

  // ---------------------------------------------------------------- unmount and mount again

  /** No step of the run mounts again with success. */
  predicate StaysUnmounted(es: seq<Event>) {
    forall i :: 0 <= i < |es| ==> es[i] != Remount(0)
  }

  lemma DetachedVault(va: Vault, e: VaultEvent, p: string)
    requires Legal(va, e) && e != MountUp && !va.attached && p in va.shadow
    ensures p in VaultStep(va, e).shadow
    ensures !(e.Capture? && e.cap.alloc && p == MakePath(va.root, e.ino, e.cap.ts)) ==>
      VaultStep(va, e).shadow[p] == va.shadow[p]
  {
  }

  lemma StaysDetached(va: Vault, e: VaultEvent)
    requires Legal(va, e) && e != MountUp && !va.attached
    ensures !VaultStep(va, e).attached && VaultStep(va, e).root == va.root
  {
  }

  /** The file of a version made so far is not the one that a capture makes. */
  lemma OldName(va: Vault, e: VaultEvent, ino: nat, ts: nat)
    requires VaultInv(va) && Legal(va, e) && e.Capture? && e.cap.alloc && ino < U64_RANGE && ts <= va.clock
    ensures MakePath(va.root, ino, ts) != MakePath(va.root, e.ino, e.cap.ts)
  {
    ShortRootFits(va.root, ino, ts);
    ShortRootFits(va.root, e.ino, e.cap.ts);
    assert ts != e.cap.ts;
    if MakePath(va.root, ino, ts) == MakePath(va.root, e.ino, e.cap.ts) {
      PathsDistinct(va.root, ino, ts, e.ino, e.cap.ts);
    }
  }

  lemma DetachedFile(va: Vault, e: VaultEvent, ino: nat, ts: nat)
    requires VaultInv(va) && Legal(va, e) && e != MountUp && !va.attached
    requires ino < U64_RANGE && ts <= va.clock && FileOf(va, ino, ts).Some?
    ensures FileOf(VaultStep(va, e), ino, ts) == FileOf(va, ino, ts)
  {
    DetachedVault(va, e, MakePath(va.root, ino, ts));
    StaysDetached(va, e);
    if e.Capture? && e.cap.alloc {
      OldName(va, e, ino, ts);
    }
  }

  /** One step without a live mount removes no shadow file, and changes none that was named before. */
  lemma DetachedStep(s: Fs, e: Event, p: string, ino: nat, ts: nat)
    requires FsInv(s) && Enabled(s, e) && e != Remount(0) && !s.vault.attached
    ensures !Step(s, e).vault.attached
    ensures p in s.vault.shadow ==> p in Step(s, e).vault.shadow
    ensures ino < U64_RANGE && ts <= s.vault.clock && FileOf(s.vault, ino, ts).Some? ==>
      FileOf(Step(s, e).vault, ino, ts) == FileOf(s.vault, ino, ts)
  {
    var r := Recorded(s, e);
    assert r != MountUp;
    StaysDetached(s.vault, r);
    if p in s.vault.shadow {
      DetachedVault(s.vault, r, p);
    }
    if ino < U64_RANGE && ts <= s.vault.clock && FileOf(s.vault, ino, ts).Some? {
      DetachedFile(s.vault, r, ino, ts);
    }
  }

  lemma {:induction false} DetachedRun(s: Fs, es: seq<Event>, p: string, ino: nat, ts: nat)
    requires FsInv(s) && ValidRun(s, es) && StaysUnmounted(es) && !s.vault.attached
    ensures !Run(s, es).vault.attached
    ensures p in s.vault.shadow ==> p in Run(s, es).vault.shadow
    ensures ino < U64_RANGE && ts <= s.vault.clock && FileOf(s.vault, ino, ts).Some? ==>
      FileOf(Run(s, es).vault, ino, ts) == FileOf(s.vault, ino, ts)
    decreases |es|
  {
    if es != [] {
      var front, last := es[..|es| - 1], es[|es| - 1];
      assert forall i :: 0 <= i < |front| ==> front[i] == es[i];
      DetachedRun(s, front, p, ino, ts);
      RunInv(s, front);
      DetachedStep(Run(s, front), last, p, ino, ts);
    }
  }

  /**
   * After an unmount every shadow file stays, through whatever collections and evictions there are, until a mount
   * finds the shadow directory again; the files of all versions made so far stay byte for byte.
   */
  lemma UnmountedFilesStay(s: Fs, es: seq<Event>, p: string, ino: nat, ts: nat)
    requires FsInv(s) && Enabled(s, Unmount) && ValidRun(Step(s, Unmount), es) && StaysUnmounted(es)
    ensures p in s.vault.shadow ==> p in Run(Step(s, Unmount), es).vault.shadow
    ensures ino < U64_RANGE && ts <= s.vault.clock && FileOf(s.vault, ino, ts).Some? ==>
      FileOf(Run(Step(s, Unmount), es).vault, ino, ts) == FileOf(s.vault, ino, ts)
  {
    StepInv(s, Unmount);
    DetachedRun(Step(s, Unmount), es, p, ino, ts);
  }

  /**
   * If the first mount does not find its shadow directory it goes on without one: no shadow file is ever removed until
   * a later mount finds it.
   */
  lemma MountedWithoutShadows(root: string, lo: Lower, err: int, es: seq<Event>, i: nat, p: string)
    requires ShortRoot(root) && LowerInv(lo) && err != 0 && i <= |es|
    requires ValidRun(Mounted(root, lo, err), es) && StaysUnmounted(es)
    requires p in At(Mounted(root, lo, err), es, i).vault.shadow
    ensures p in Run(Mounted(root, lo, err), es).vault.shadow
  {
    MountedInv(root, lo, err);
    NeverRemoved(Mounted(root, lo, err), es, i, p);
  }

  lemma {:induction false} NeverRemoved(s: Fs, es: seq<Event>, i: nat, p: string)
    requires FsInv(s) && ValidRun(s, es) && StaysUnmounted(es) && !s.vault.attached && i <= |es|
    requires p in At(s, es, i).vault.shadow
    ensures p in Run(s, es).vault.shadow
    decreases |es|
  {
    if i < |es| {
      var front, last := es[..|es| - 1], es[|es| - 1];
      assert front[..i] == es[..i];
      assert forall k :: 0 <= k < |front| ==> front[k] == es[k];
      NeverRemoved(s, front, i, p);
      DetachedRun(s, front, p, 0, 0);
      RunInv(s, front);
      DetachedStep(Run(s, front), last, p, 0, 0);
    } else {
      assert es[..i] == es;
    }
  }

  lemma SweepRemoves(va: Vault, cutoff: nat, reach: Reach, ino: nat, v: Version)
    requires VaultInv(va) && v in ListOf(va.store, ino) && v.hasData && v.ts < cutoff && Reaches(reach, v.path)
    ensures v.path in va.shadow && v.path !in Sweep(va.shadow, va.store, va.root, cutoff, reach)
  {
    assert VersionOk(va, ino, v);
    FreesOwnFile(va, ino, v);
    assert Doomed(va.store, va.root, cutoff, v.path);
  }

  /** With a live mount a collection removes the file of every expired version that is not stuck. */
  lemma CollectionRemoves(s: Fs, e: Event, ino: nat, v: Version)
    requires FsInv(s) && Enabled(s, e) && e.Collection? && s.vault.attached
    requires v in ListOf(s.vault.store, ino) && v.hasData && v.ts < Cutoff(e.now, e.window) && v.path !in e.stuck
    ensures v.path in s.vault.shadow && v.path !in Step(s, e).vault.shadow
  {
    CollectedFiles(s, e);
    SweepRemoves(s.vault, Cutoff(e.now, e.window), Except(e.stuck), ino, v);
  }

  lemma CollectedFiles(s: Fs, e: Event)
    requires Enabled(s, e) && e.Collection? && s.vault.attached
    ensures Step(s, e).vault.shadow
         == Sweep(s.vault.shadow, s.vault.store, s.vault.root, Cutoff(e.now, e.window), Except(e.stuck))
  {
    assert Recorded(s, e) == Gc(e.now, e.window, e.stuck);
  }

  /** A later mount that does not find the shadow directory changes nothing. */
  lemma FailedRemount(s: Fs, err: int)
    requires Enabled(s, Remount(err)) && err != 0
    ensures Step(s, Remount(err)) == s
  {
  }

  /** One that does changes no version and no file, and makes collections remove again. */
  lemma RemountRemoves(s: Fs, e: Event, ino: nat, v: Version)
    requires FsInv(s) && Enabled(s, Remount(0)) && Enabled(Step(s, Remount(0)), e) && e.Collection?
    requires v in ListOf(s.vault.store, ino) && v.hasData && v.ts < Cutoff(e.now, e.window) && v.path !in e.stuck
    ensures Step(s, Remount(0)) == s.(vault := Step(s, Remount(0)).vault)
    ensures Step(s, Remount(0)).vault.store == s.vault.store && Step(s, Remount(0)).vault.shadow == s.vault.shadow
    ensures v.path in s.vault.shadow && v.path !in Step(Step(s, Remount(0)), e).vault.shadow
  {
    StepInv(s, Remount(0));
    CollectionRemoves(Step(s, Remount(0)), e, ino, v);
  }

  // ---------------------------------------------------------------- rollbacks that fail

  /** A path outside the mount. */
  lemma ForeignPath(s: Fs, path: string, ts: nat, env: RollbackEnv)
    requires RollbackLegal(s, path, ts, env) && path in s.lower.foreign
    ensures Rollback(s, path, ts, env) == (EINVAL, s.lower)
  {
  }

  /** A file of which no version is listed, or none with that timestamp. */
  lemma NoSuchVersion(s: Fs, path: string, ino: nat, ts: nat, env: RollbackEnv)
    requires FsInv(s) && RollbackLegal(s, path, ts, env) && path !in s.lower.foreign
    requires Resolve(s.lower, path) == Some(ino)
    requires forall v :: v in ListOf(s.vault.store, ino) ==> ts != 0 && v.ts != ts
    ensures Rollback(s, path, ts, env) == (ENOENT, s.lower)
  {
  }

  /** A missing path that was not the name of any listed deleted file, or not of one with that timestamp. */
  lemma NoSuchDeletion(s: Fs, path: string, ts: nat, env: RollbackEnv)
    requires RollbackLegal(s, path, ts, env) && path !in s.lower.foreign && Resolve(s.lower, path).None?
    requires forall v :: Stored(s.vault.store, v) ==> !Matches(v, BaseName(path), ts)
    ensures Rollback(s, path, ts, env)
         == (if '/' !in path || path[|path| - 1] == '/' then EINVAL else ENOENT, s.lower)
  {
    if LastSlash(path) >= 0 {
      assert path[LastSlash(path)] == '/';
      assert BaseName(path) == "" <==> LastSlash(path) == |path| - 1;
    }
  }

  /** A missing path whose deletion is listed: each thing that can go wrong, in the order of the code. */
  lemma DeletionErrors(s: Fs, dir: string, name: string, ts: nat, env: RollbackEnv)
    requires dir != "" && LegalName(name) && RollbackLegal(s, Join(dir, name), ts, env)
    requires Join(dir, name) !in s.lower.foreign && !HasEntry(s.lower, dir, name)
    requires exists v :: Stored(s.vault.store, v) && Matches(v, name, ts)
    requires dir in s.lower.foreign || dir !in s.lower.dirs || env.lookupErr != 0 || env.lowerErr != 0
    ensures Rollback(s, Join(dir, name), ts, env)
         == (if dir in s.lower.foreign then EINVAL
             else if dir !in s.lower.dirs then ENOENT
             else if env.lookupErr != 0 then env.lookupErr
             else env.lowerErr, s.lower)
  {
    JoinSplits(dir, name);
    var v :| Stored(s.vault.store, v) && Matches(v, name, ts);
    assert FindDeleted(s.vault.store, name, ts).Some?;
  }

  lemma RecreationEffect(va: Vault, lo: Lower, dir: string, name: string, v: Version, env: RollbackEnv)
    requires dir in lo.dirs && RestorePlays(va, v, env) && env.lowerErr <= 0 && env.newIno !in lo.nodes
    ensures var r := Recreate(va, lo, dir, name, v, env);
      && r.0 == (if HasEntry(lo, dir, name) then EEXIST else env.lowerErr)
      && (r.0 != 0 ==> r.1 == lo)
      && (r.0 == 0 ==>
          && OtherEntriesStay(lo, r.1, {(dir, name)})
          && r.1.nodes.Keys == lo.nodes.Keys + {env.newIno}
          && (forall j :: j in lo.nodes ==> r.1.nodes[j] == lo.nodes[j])
          && StatOf(r.1.nodes[env.newIno]) == Stat(env.uid, env.gid, v.stat.mode & env.keep))
  {
  }

  lemma RecreationUndo(va: Vault, lo: Lower, dir: string, name: string, v: Version, env: RollbackEnv)
    requires HasEntry(lo, dir, name) && lo.dirs[dir][name] in lo.nodes && RestorePlays(va, v, env)
    requires env.lookupErr <= 0 && env.lowerErr <= 0 && env.newIno !in lo.nodes && v.op == OpUnlink
    ensures var r := Undo(va, lo, dir, name, v, env);
      && r.0 == (if env.lookupErr != 0 then 0 else if HasEntry(lo, dir, v.name) then EEXIST else env.lowerErr)
      && (env.lookupErr != 0 || r.0 != 0 ==> r.1 == lo)
      && (env.lookupErr == 0 && r.0 == 0 ==>
          && OtherEntriesStay(lo, r.1, {(dir, v.name)})
          && r.1.nodes.Keys == lo.nodes.Keys + {env.newIno}
          && (forall j :: j in lo.nodes ==> r.1.nodes[j] == lo.nodes[j])
          && StatOf(r.1.nodes[env.newIno]) == Stat(env.uid, env.gid, v.stat.mode & env.keep))
  {
    RecreationEffect(va, lo, dir, v.name, v, env);
  }

  /**
   * An UNLINK version through a path that resolves: the rollback reports that the deleted name is taken, or that the
   * creation failed, and nothing else; when it recreates the file, no other name and no other file changes.
   */
  lemma RecreationResult(s: Fs, path: string, ts: nat, env: RollbackEnv)
    requires FsInv(s) && Enabled(s, RollbackTo(path, ts, env)) && path !in s.lower.foreign
    requires Resolve(s.lower, path).Some? && Selected(s, path, ts).Some?
    requires Selected(s, path, ts).value.op == OpUnlink
    ensures var (d, v, r) := (DirOf(path), Selected(s, path, ts).value, Rollback(s, path, ts, env));
      && r.0 == (if env.lookupErr != 0 then 0 else if HasEntry(s.lower, d, v.name) then EEXIST else env.lowerErr)
      && (env.lookupErr != 0 || r.0 != 0 ==> r.1 == s.lower)
      && (env.lookupErr == 0 && r.0 == 0 ==>
          && OtherEntriesStay(s.lower, r.1, {(d, v.name)})
          && r.1.nodes.Keys == s.lower.nodes.Keys + {env.newIno}
          && (forall j :: j in s.lower.nodes ==> r.1.nodes[j] == s.lower.nodes[j])
          && StatOf(r.1.nodes[env.newIno]) == Stat(env.uid, env.gid, v.stat.mode & env.keep))
  {
    RollbackIsUndo(s, path, ts, env);
    RecreationUndo(s.vault, s.lower, DirOf(path), BaseName(path), Selected(s, path, ts).value, env);
  }

  /** A RENAME version: the lookup or the rename fails. */
  lemma RenamingErrors(s: Fs, path: string, ts: nat, env: RollbackEnv)
    requires FsInv(s) && RollbackLegal(s, path, ts, env) && path !in s.lower.foreign
    requires Resolve(s.lower, path).Some? && Selected(s, path, ts).Some?
    requires Selected(s, path, ts).value.op == OpRename && (env.lookupErr != 0 || env.lowerErr != 0)
    ensures Rollback(s, path, ts, env) == (if env.lookupErr != 0 then env.lookupErr else env.lowerErr, s.lower)
  {
    assert VersionOk(s.vault, Resolve(s.lower, path).value, Selected(s, path, ts).value);
  }

  /** A version with data: the rollback returns what the restore returned. */
  lemma RestoringErrors(s: Fs, path: string, ts: nat, env: RollbackEnv)
    requires RollbackLegal(s, path, ts, env) && path !in s.lower.foreign
    requires Resolve(s.lower, path).Some? && Selected(s, path, ts).Some?
    requires Selected(s, path, ts).value.op != OpUnlink && Selected(s, path, ts).value.hasData
    ensures var (ino, v) := (Resolve(s.lower, path).value, Selected(s, path, ts).value);
      Rollback(s, path, ts, env).0 == Restore(Saved(s.vault, v), s.lower.nodes[ino].content, env.restore).0
  {
  }

  lemma FailedUndoEffect(va: Vault, lo: Lower, dir: string, name: string, v: Version, env: RollbackEnv)
    requires HasEntry(lo, dir, name) && lo.dirs[dir][name] in lo.nodes && RestorePlays(va, v, env)
    requires Undo(va, lo, dir, name, v, env).0 != 0
    ensures var (ino, r) := (lo.dirs[dir][name], Undo(va, lo, dir, name, v, env).1);
      OnlyFile(lo, r, ino) && ino in r.nodes && StatOf(r.nodes[ino]) == StatOf(lo.nodes[ino])
  {
  }

  lemma FailedRecreation(va: Vault, lo: Lower, dir: string, base: string, found: Option<Version>, env: RollbackEnv)
    requires found.Some? ==> RestorePlays(va, found.value, env)
    requires RecreateFound(va, lo, dir, base, found, env).0 != 0
    ensures RecreateFound(va, lo, dir, base, found, env).1 == lo
  {
  }

  /** A rollback that reports an error has changed no name, no owner and no mode, and one content at the most. */
  lemma FailedRollbackEffect(s: Fs, path: string, ts: nat, env: RollbackEnv)
    requires FsInv(s) && RollbackLegal(s, path, ts, env) && Rollback(s, path, ts, env).0 != 0
    ensures Resolve(s.lower, path).None? ==> Rollback(s, path, ts, env).1 == s.lower
    ensures Resolve(s.lower, path).Some? ==>
      var (ino, lo) := (Resolve(s.lower, path).value, Rollback(s, path, ts, env).1);
      && OnlyFile(s.lower, lo, ino) && ino in lo.nodes
      && StatOf(lo.nodes[ino]) == StatOf(s.lower.nodes[ino])
  {
    if path !in s.lower.foreign {
      if Resolve(s.lower, path).None? {
        if LastSlash(path) >= 0 && BaseName(path) != "" {
          FailedRecreation(s.vault, s.lower, DirOf(path), BaseName(path), Selected(s, path, ts), env);
        }
      } else if Selected(s, path, ts).Some? {
        RollbackIsUndo(s, path, ts, env);
        FailedUndoEffect(s.vault, s.lower, DirOf(path), BaseName(path), Selected(s, path, ts).value, env);
      }
    }
  }
}
