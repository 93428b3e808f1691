/** The file system operations as the code runs them, each proved to be one step of the state machine. */
module CowFs {
  import opened CowTypes
  import opened ShadowNames
  import opened ShadowCopy
  import opened VersionLists
  import opened Vaults
  import opened LowerFs
  import opened CowFsModel
  import opened ShadowStore
  import opened VersionStore

  class Mount {
    const versions: VersionTable
    const shadows: ShadowDir
    /** The lower file system and the open files. */
    var lower: Lower
    var handles: map<nat, Handle>
    ghost var clock: nat

    ghost function State(): Fs
      reads this, versions, shadows
    {
      Fs(versions.VaultOf(shadows, clock), lower, handles)
    }

    ghost predicate Valid()
      reads this, versions, versions.table, versions.Infos, shadows
    {
      versions.Valid() && FsInv(State())
    }

    /** Loading and the first mount; `err` is what `cowfs_shadow_init` returns, without which the mount goes on. */
    constructor (hash: nat -> nat, root: string, lower: Lower, err: int)
      requires forall ino :: hash(ino) < HASH_BUCKETS
      requires ShortRoot(root) && LowerInv(lower)
      ensures Valid() && State() == Mounted(root, lower, err)
      ensures fresh(versions) && fresh(versions.table) && fresh(versions.Infos) && fresh(shadows)
    {
      versions := new VersionTable(hash);
      shadows := new ShadowDir(root, err);
      this.lower := lower;
      handles := map[];
      clock := 0;
      new;
      MountedInv(root, lower, err);
    }

    /** `cowfs_open`; `alloc` tells whether the handle can be allocated, `lowerErr` is the result of the lower open. */
    method Open(h: nat, ino: nat, writable: bool, alloc: bool, lowerErr: int) returns (err: int)
      requires Valid() && Enabled(State(), Event.Open(h, ino, writable)) && lowerErr <= 0
      modifies this`handles
      ensures err == if !alloc then ENOMEM else lowerErr
      ensures Valid() && State() == if err == 0 then Step(old(State()), Event.Open(h, ino, writable)) else old(State())
    {
      if !alloc {
        return ENOMEM;
      }
      if lowerErr < 0 {
        return lowerErr;
      }
      err := 0;
      StepInv(State(), Event.Open(h, ino, writable));
      handles := handles[h := Handle(ino, writable, false)];
    }

    /** `cowfs_release`. */
    method Release(h: nat)
      requires Valid() && Enabled(State(), Close(h))
      modifies this
      ensures Valid() && State() == Step(old(State()), Close(h))
    {
      StepInv(State(), Close(h));
      handles := handles - {h};
    }

    ghost function History(): Vault
      reads this, versions, shadows
    {
      State().vault
    }

    /** `cowfs_version_add` on this mount; the callers ignore its result. */
    method Record(ino: nat, v: Version, record: bool, stuck: set<string>)
      requires versions.Valid()
      modifies versions, versions.table, versions.Infos, shadows`files
      ensures versions.Valid() && fresh(versions.Infos - old(versions.Infos))
      ensures History() == Publish(old(History()), ino, v, record, stuck)
    {
      var err := versions.Add(ino, v, record, stuck, shadows, clock);
    }

    /** `cowfs_shadow_copy_file` of a lower file. */
    method SaveCopy(ino: nat, path: string, env: CopyEnv) returns (err: int)
      requires ino in lower.nodes && CopyLegal(lower.nodes[ino].content, env)
      requires versions.Valid()
      modifies shadows`files
      ensures versions.Valid()
      ensures err == Copy(lower.nodes[ino].content, env).0
      ensures History() == match Copy(lower.nodes[ino].content, env).1
                           case None => old(History())
                           case Some(b) => old(History()).(shadow := old(History()).shadow[path := b])
    {
      err := shadows.CopyFile(lower.nodes[ino].content, path, env);
    }

    /** The capture that `cowfs_write` and `cowfs_unlink` make: without a copy of the data there is no version. */
    method CaptureData(ino: nat, op: Op, name: string, cap: CapEnv)
      requires versions.Valid() && ino in lower.nodes && cap.alloc
      requires op == OpWrite || op == OpUnlink
      requires Legal(History(), CaptureOf(State(), ino, op, name, true, cap))
      modifies this`clock, versions, versions.table, versions.Infos, shadows`files
      ensures versions.Valid() && fresh(versions.Infos - old(versions.Infos))
      ensures History() == DoCapture(old(History()), old(CaptureOf(State(), ino, op, name, true, cap)))
    {
      clock := cap.ts;
      var path := MakePath(shadows.root, ino, cap.ts);
      var err := SaveCopy(ino, path, cap.copy);
      if err == 0 {
        Record(ino, Version(cap.ts, op, path, name, StatOf(lower.nodes[ino]), true), cap.record, cap.stuck);
      }
    }

    /** `cowfs_write`; `after` is the content that the lower write leaves. */
    method Write(h: nat, cap: CapEnv, after: Bytes)
      requires Valid() && Enabled(State(), Event.Write(h, cap, after))
      modifies this, versions, versions.table, versions.Infos, shadows`files
      ensures Valid() && fresh(versions.Infos - old(versions.Infos))
      ensures State() == Step(old(State()), Event.Write(h, cap, after))
    {
      StepInv(State(), Event.Write(h, cap, after));
      var fi := handles[h];
      if !fi.snapshotTaken && fi.writable {
        handles := handles[h := fi.(snapshotTaken := true)];
        if cap.alloc {
          CaptureData(fi.ino, OpWrite, "", cap);
        }
      }
      if fi.writable {
        ChangeLower(SetNode(lower, fi.ino, lower.nodes[fi.ino].(content := after)));
      }
    }

    /** The effect of a lower call. */
    method ChangeLower(changed: Lower)
      requires versions.Valid()
      modifies this`lower
      ensures versions.Valid() && lower == changed && State() == old(State()).(lower := changed)
    {
      lower := changed;
    }

    /** `cowfs_unlink`; `err` is the result of the lower unlink. */
    method Unlink(dir: string, name: string, cap: CapEnv, err: int)
      requires Valid() && Enabled(State(), Event.Unlink(dir, name, cap, err))
      modifies this, versions, versions.table, versions.Infos, shadows`files
      ensures Valid() && fresh(versions.Infos - old(versions.Infos))
      ensures State() == Step(old(State()), Event.Unlink(dir, name, cap, err))
    {
      StepInv(State(), Event.Unlink(dir, name, cap, err));
      if cap.alloc {
        CaptureData(lower.dirs[dir][name], OpUnlink, name, cap);
      }
      if err == 0 {
        ChangeLower(DropEntry(lower, dir, name));
      }
    }

    /** The capture of `cowfs_rename`: the old name only. */
    method CaptureName(ino: nat, name: string, cap: CapEnv)
      requires versions.Valid() && ino in lower.nodes && cap.alloc
      requires Legal(History(), CaptureOf(State(), ino, OpRename, name, false, cap))
      modifies this`clock, versions, versions.table, versions.Infos, shadows`files
      ensures versions.Valid() && fresh(versions.Infos - old(versions.Infos))
      ensures History() == DoCapture(old(History()), old(CaptureOf(State(), ino, OpRename, name, false, cap)))
    {
      clock := cap.ts;
      Record(ino, Version(cap.ts, OpRename, "", name, StatOf(lower.nodes[ino]), false), cap.record, cap.stuck);
    }

    /** `cowfs_rename` with flags 0; `err` is the result of the lower rename. */
    method Rename(dir: string, name: string, newDir: string, newName: string, cap: CapEnv, err: int)
      requires Valid() && Enabled(State(), Event.Rename(dir, name, newDir, newName, cap, err))
      modifies this, versions, versions.table, versions.Infos, shadows`files
      ensures Valid() && fresh(versions.Infos - old(versions.Infos))
      ensures State() == Step(old(State()), Event.Rename(dir, name, newDir, newName, cap, err))
    {
      StepInv(State(), Event.Rename(dir, name, newDir, newName, cap, err));
      if cap.alloc {
        CaptureName(lower.dirs[dir][name], name, cap);
      }
      if err == 0 {
        ChangeLower(RenameEntry(lower, dir, name, newDir, newName));
      }
    }

    /** The capture of `cowfs_setattr`: the attributes, and the data if the size is about to change. */
    method CaptureAttributes(ino: nat, attr: Attr, cap: CapEnv)
      requires versions.Valid() && ino in lower.nodes && cap.alloc
      requires Legal(History(), CaptureOf(State(), ino, OpSetattr, "", attr.size.Some?, cap))
      modifies this`clock, versions, versions.table, versions.Infos, shadows`files
      ensures versions.Valid() && fresh(versions.Infos - old(versions.Infos))
      ensures History() == DoCapture(old(History()), old(CaptureOf(State(), ino, OpSetattr, "", attr.size.Some?, cap)))
    {
      clock := cap.ts;
      var v := Version(cap.ts, OpSetattr, "", "", StatOf(lower.nodes[ino]), false);
      if attr.size.Some? {
        var path := MakePath(shadows.root, ino, cap.ts);
        var err := SaveCopy(ino, path, cap.copy);
        if err == 0 {
          v := v.(path := path, hasData := true);
        }
      }
      Record(ino, v, cap.record, cap.stuck);
    }

    /** The lower `notify_change`, and the mark that a truncating open leaves on its handle. */
    method ChangeAttributes(ino: nat, attr: Attr, file: Option<nat>, err: int)
      requires versions.Valid() && ino in lower.nodes && (file.Some? ==> file.value in handles)
      modifies this`lower, this`handles
      ensures versions.Valid() && History() == old(History())
      ensures lower == if err == 0
                       then SetNode(old(lower), ino, NotifyChange(old(lower).nodes[ino], attr)) else old(lower)
      ensures handles == if err == 0 && attr.size.Some? && file.Some?
                         then old(handles)[file.value := old(handles)[file.value].(snapshotTaken := true)]
                         else old(handles)
    {
      if err == 0 {
        lower := SetNode(lower, ino, NotifyChange(lower.nodes[ino], attr));
        if attr.size.Some? && file.Some? {
          handles := handles[file.value := handles[file.value].(snapshotTaken := true)];
        }
      }
    }

    /** `cowfs_setattr`; `err` is the result of the lower `notify_change`. */
    method Setattr(ino: nat, attr: Attr, file: Option<nat>, cap: CapEnv, err: int)
      requires Valid() && Enabled(State(), Event.Setattr(ino, attr, file, cap, err))
      modifies this, versions, versions.table, versions.Infos, shadows`files
      ensures Valid() && fresh(versions.Infos - old(versions.Infos))
      ensures State() == Step(old(State()), Event.Setattr(ino, attr, file, cap, err))
    {
      StepInv(State(), Event.Setattr(ino, attr, file, cap, err));
      if cap.alloc {
        CaptureAttributes(ino, attr, cap);
      }
      ChangeAttributes(ino, attr, file, err);
    }

    /** `cowfs_version_gc`, as the worker runs it at time `now`. */
    method CollectGarbage(now: nat, window: nat, stuck: set<string>)
      requires Valid() && Enabled(State(), Collection(now, window, stuck))
      modifies this, versions, versions.Infos, shadows`files
      ensures Valid() && State() == Step(old(State()), Collection(now, window, stuck))
    {
      StepInv(State(), Collection(now, window, stuck));
      clock := now;
      versions.Gc(now, window, stuck, shadows);
    }

    /** The part of an unmount that matters here: the versions stay, and so do all shadow files. */
    method Unmount()
      requires Valid() && Enabled(State(), Event.Unmount)
      modifies shadows`attached
      ensures Valid() && State() == Step(old(State()), Event.Unmount)
    {
      StepInv(State(), Event.Unmount);
      shadows.Cleanup();
    }

    /** A later mount of the same directory. */
    method Remount(err: int)
      requires Valid() && Enabled(State(), Event.Remount(err))
      modifies shadows`attached
      ensures Valid() && State() == Step(old(State()), Event.Remount(err))
    {
      StepInv(State(), Event.Remount(err));
      shadows.Init(err);
    }

    /** Unloading the module, possible only after the unmount: every version is gone, no shadow file is. */
    method Unload(stuck: set<string>)
      requires versions.Valid() && !shadows.attached
      modifies versions, versions.table, versions.Infos, shadows`files
      ensures versions.Valid() && State() == old(State()).(vault := old(History()).(store := map[]))
    {
      ghost var files := shadows.files;
      versions.GcAll(stuck, shadows);
      assert shadows.files == files;
    }

    // -------------------------------------------------------------- ioctl

    /** LIST: at most 32 versions of the file, the newest first. */
    method IoctlList(path: string, maxCount: nat) returns (err: int, found: seq<Version>)
      requires Valid()
      ensures path in lower.foreign || Resolve(lower, path).None? ==> err == ENOENT && found == []
      ensures path !in lower.foreign && Resolve(lower, path).Some? ==>
        var l := ListOf(History().store, Resolve(lower, path).value);
        && err == 0 && found <= l
        && |found| == (var m := if maxCount < IOC_MAX_VERSIONS then maxCount else IOC_MAX_VERSIONS;
                       if m < |l| then m else |l|)
        && (forall v :: v in l && v !in found ==> forall w :: w in found ==> v.ts < w.ts)
    {
      found := [];
      if path in lower.foreign || Resolve(lower, path).None? {
        return ENOENT, found;
      }
      var ino := Resolve(lower, path).value;
      found := versions.ListVersions(ino, if maxCount < IOC_MAX_VERSIONS then maxCount else IOC_MAX_VERSIONS);
      ListedNewest(ListOf(History().store, ino), |found|);
      err := 0;
    }

    /** `cowfs_shadow_restore_file` of a version over a file that holds `target`. */
    method RestoreVersion(v: Version, target: Bytes, env: RestoreEnv) returns (err: int, content: Bytes)
      requires RestoreLegal(Saved(History(), v), env)
      ensures err == Restore(Saved(History(), v), target, env).0
      ensures content == Restore(Saved(History(), v), target, env).1
    {
      err, content := shadows.RestoreFile(v.path, target, env);
    }

    /** The restore into a file just created; its result is ignored. */
    method Fill(v: Version, env: RollbackEnv) returns (content: Bytes)
      requires RestorePlays(History(), v, env)
      ensures content == Filled(History(), v, env)
    {
      content := [];
      if v.hasData {
        var ignored;
        ignored, content := RestoreVersion(v, content, env.restore);
      }
    }

    /** `vfs_create` and the restore that follows it in both places that recreate a deleted file. */
    method RecreateFile(dir: string, name: string, v: Version, env: RollbackEnv) returns (err: int)
      requires dir in lower.dirs && RestorePlays(History(), v, env)
      modifies this`lower
      ensures err == Recreate(History(), old(lower), dir, name, v, env).0
      ensures lower == Recreate(History(), old(lower), dir, name, v, env).1
    {
      if name in lower.dirs[dir] {
        err := EEXIST;
      } else if env.lowerErr < 0 {
        err := env.lowerErr;
      } else {
        err := 0;
        var content := Fill(v, env);
        var node := Inode(content, env.uid, env.gid, v.stat.mode & env.keep);
        lower := SetNode(AddEntry(lower, dir, name, env.newIno), env.newIno, node);
      }
    }

    /** The second half of `rollback_deleted`. */
    method RecreateFrom(dir: string, base: string, found: Option<Version>, env: RollbackEnv) returns (err: int)
      requires found.Some? ==> RestorePlays(History(), found.value, env)
      modifies this`lower
      ensures err == RecreateFound(History(), old(lower), dir, base, found, env).0
      ensures lower == RecreateFound(History(), old(lower), dir, base, found, env).1
    {
      if found.None? {
        return ENOENT;
      }
      if dir in lower.foreign {
        return EINVAL;
      }
      if dir !in lower.dirs {
        return ENOENT;
      }
      if env.lookupErr < 0 {
        return env.lookupErr;
      }
      err := RecreateFile(dir, base, found.value, env);
    }

    /** The search of `rollback_deleted`. */
    method FindMissing(name: string, ts: nat) returns (found: Option<Version>)
      requires versions.Valid() && SearchIsUnique(versions.Contents)
      ensures found == FindDeleted(versions.Contents, name, ts)
    {
      found := versions.FindDeletedVersion(name, ts);
    }

    /** `rollback_deleted`. */
    method RollbackMissing(path: string, ts: nat, env: RollbackEnv) returns (err: int)
      requires versions.Valid() && SearchIsUnique(versions.Contents)
      requires RollbackLegal(State(), path, ts, env) && Resolve(lower, path).None?
      modifies this`lower
      ensures err == RollbackDeleted(old(State()), path, ts, env).0
      ensures lower == RollbackDeleted(old(State()), path, ts, env).1
    {
      var slash := LastSlash(path);
      if slash < 0 {
        return EINVAL;
      }
      var base := path[slash + 1..];
      if base == "" {
        return EINVAL;
      }
      var dir := if slash == 0 then path[..1] else path[..slash];
      var found := FindMissing(base, ts);
      err := RecreateFrom(dir, base, found, env);
    }

    /** The `if` chain of the ROLLBACK case for a path that resolves. */
    method UndoVersion(dir: string, name: string, v: Version, env: RollbackEnv) returns (err: int)
      requires HasEntry(lower, dir, name) && lower.dirs[dir][name] in lower.nodes && RestorePlays(History(), v, env)
      modifies this`lower
      ensures err == Undo(History(), old(lower), dir, name, v, env).0
      ensures lower == Undo(History(), old(lower), dir, name, v, env).1
    {
      err := 0;
      var ino := lower.dirs[dir][name];
      if v.op == OpUnlink {
        if env.lookupErr >= 0 {
          err := RecreateFile(dir, v.name, v, env);
        }
      } else if v.hasData {
        var content;
        err, content := RestoreVersion(v, lower.nodes[ino].content, env.restore);
        lower := SetNode(lower, ino, lower.nodes[ino].(content := content));
      } else if v.op == OpRename {
        if env.lookupErr < 0 {
          err := env.lookupErr;
        } else if env.lowerErr < 0 {
          err := env.lowerErr;
        } else {
          lower := RenameEntry(lower, dir, name, dir, v.name);
        }
      }
      if err == 0 && v.op == OpSetattr && env.attrErr == 0 {
        lower := SetNode(lower, ino, lower.nodes[ino].(uid := v.stat.uid, gid := v.stat.gid, mode := v.stat.mode));
      }
    }

    /** Look the version up and undo it. */
    method RollbackPath(path: string, ts: nat, env: RollbackEnv) returns (err: int)
      requires versions.Valid() && SearchIsUnique(versions.Contents)
      requires RollbackLegal(State(), path, ts, env)
      modifies this`lower
      ensures versions.Valid()
      ensures err == Rollback(old(State()), path, ts, env).0
      ensures lower == Rollback(old(State()), path, ts, env).1
    {
      var resolved := Resolve(lower, path);
      if path in lower.foreign {
        err := EINVAL;
      } else if resolved.None? {
        err := RollbackMissing(path, ts, env);
      } else {
        var found := versions.FindVersion(resolved.value, ts);
        if found.None? {
          err := ENOENT;
        } else {
          err := UndoVersion(DirOf(path), BaseName(path), found.value, env);
        }
      }
    }

    /** ROLLBACK. */
    method IoctlRollback(path: string, ts: nat, env: RollbackEnv) returns (err: int)
      requires Valid() && Enabled(State(), RollbackTo(path, ts, env))
      modifies this`lower
      ensures Valid() && State() == Step(old(State()), RollbackTo(path, ts, env))
      ensures err == Rollback(old(State()), path, ts, env).0
    {
      ghost var s, e := State(), RollbackTo(path, ts, env);
      StepInv(s, e);
      InvMakesSearchUnique(s.vault);
      err := RollbackPath(path, ts, env);
      assert State() == Step(s, e);
    }
  }

  /** There is at most one best match for any search. */
  ghost predicate SearchIsUnique(m: Store) {
    forall name, ts, a, b :: IsBest(m, name, ts, a) && IsBest(m, name, ts, b) ==> a == b
  }

  lemma InvMakesSearchUnique(va: Vault)
    requires VaultInv(va)
    ensures SearchIsUnique(va.store)
  {
    forall name, ts, a, b | IsBest(va.store, name, ts, a) && IsBest(va.store, name, ts, b) ensures a == b {
      BestUnique(va, name, ts, a, b);
    }
  }

  /** Timestamps are distinct, so there is one best match. */
  lemma BestUnique(va: Vault, name: string, ts: nat, a: Option<Version>, b: Option<Version>)
    requires VaultInv(va) && IsBest(va.store, name, ts, a) && IsBest(va.store, name, ts, b)
    ensures a == b
  {
    if a.Some? && b.Some? {
      var i :| i in va.store && a.value in va.store[i];
      var j :| j in va.store && b.value in va.store[j];
      SameTime(va, i, a.value, j, b.value);
    }
  }

  lemma ListedNewest(l: seq<Version>, n: nat)
    requires Descending(l) && n <= |l|
    ensures forall v :: v in l && v !in l[..n] ==> forall w :: w in l[..n] ==> v.ts < w.ts
  {
    forall v, w | v in l && v !in l[..n] && w in l[..n] ensures v.ts < w.ts {
      var i :| 0 <= i < |l| && l[i] == v;
      var j :| 0 <= j < n && l[..n][j] == w;
      assert forall k :: 0 <= k < n ==> l[k] in l[..n];
    }
  }
}
