/** cowfs as a state machine: what each operation records first and then does to the lower file system. */
module CowFsModel {
  import opened CowTypes
  import opened ShadowNames
  import opened ShadowCopy
  import opened VersionLists
  import opened Vaults
  import opened LowerFs

  /** `struct cowfs_file_info` with what it is open on. */
  datatype Handle = Handle(ino: nat, writable: bool, snapshotTaken: bool)

  datatype Fs = Fs(vault: Vault, lower: Lower, handles: map<nat, Handle>)

  /** What the surroundings decide during a rollback; `keep` is the creation filter of the lower file system. */
  datatype RollbackEnv = RollbackEnv(
    lookupErr: int, lowerErr: int, attrErr: int, newIno: nat, uid: nat, gid: nat, keep: bv16, restore: RestoreEnv)

  /**
   * The operations. `err` is the result of the lower call, `after` the content that the lower write leaves,
   * `file` the handle in `attr->ia_file`. `Evict` is the lower file system dropping an inode nothing refers to.
   * The version table outlives an unmount; `Remount` mounts the same directory again, `err` is what its
   * `cowfs_shadow_init` returned.
   */
  datatype Event =
    | Open(h: nat, ino: nat, writable: bool)
    | Close(h: nat)
    | Write(h: nat, cap: CapEnv, after: Bytes)
    | Unlink(dir: string, name: string, cap: CapEnv, err: int)
    | Rename(dir: string, name: string, newDir: string, newName: string, cap: CapEnv, err: int)
    | Setattr(ino: nat, attr: Attr, file: Option<nat>, cap: CapEnv, err: int)
    | Create(dir: string, name: string, ino: nat, node: Inode)
    | Evict(ino: nat)
    | Collection(now: nat, window: nat, stuck: set<string>)
    | Unmount
    | Remount(err: int)
    | RollbackTo(path: string, ts: nat, env: RollbackEnv)

  // ---------------------------------------------------------------- what is recorded before the change

  /** The files and handles that an operation names exist. */
  predicate Defined(s: Fs, e: Event) {
    match e
    case Open(h, ino, _) => h !in s.handles && ino in s.lower.nodes
    case Close(h) => h in s.handles
    case Write(h, _, _) => h in s.handles && s.handles[h].ino in s.lower.nodes
    case Unlink(dir, name, _, _) =>
      HasEntry(s.lower, dir, name) && s.lower.dirs[dir][name] in s.lower.nodes && LegalName(name)
    case Rename(dir, name, newDir, newName, _, _) =>
      && HasEntry(s.lower, dir, name) && s.lower.dirs[dir][name] in s.lower.nodes && LegalName(name)
      && newDir in s.lower.dirs && LegalName(newName)
    case Setattr(ino, _, file, _, _) =>
      ino in s.lower.nodes && (file.Some? ==> file.value in s.handles && s.handles[file.value].ino == ino)
    case Create(dir, name, ino, _) =>
      && dir in s.lower.dirs && !HasEntry(s.lower, dir, name) && LegalName(name)
      && ino !in s.lower.nodes && ino < U64_RANGE
    case Evict(ino) =>
      && ino in s.lower.nodes
      && (forall d | d in s.lower.dirs :: forall n | n in s.lower.dirs[d] :: s.lower.dirs[d][n] != ino)
      && (forall h | h in s.handles :: s.handles[h].ino != ino)
    case Collection(_, _, _) => true
    case Unmount => s.handles == map[]
    case Remount(_) => true
    case RollbackTo(_, _, env) => env.newIno !in s.lower.nodes && env.newIno < U64_RANGE
  }

  /** A write takes a snapshot only on the first write through a handle. */
  predicate Snapshots(h: Handle) {
    !h.snapshotTaken && h.writable
  }

  function CaptureOf(s: Fs, ino: nat, op: Op, name: string, withData: bool, cap: CapEnv): VaultEvent
    requires ino in s.lower.nodes
  {
    var node := s.lower.nodes[ino];
    Capture(ino, op, name, node.content, StatOf(node), withData, cap)
  }

  function Recorded(s: Fs, e: Event): VaultEvent
    requires Defined(s, e)
  {
    match e
    case Write(h, cap, _) =>
      if Snapshots(s.handles[h]) then CaptureOf(s, s.handles[h].ino, OpWrite, "", true, cap) else Idle
    case Unlink(dir, name, cap, _) => CaptureOf(s, s.lower.dirs[dir][name], OpUnlink, name, true, cap)
    case Rename(dir, name, _, _, cap, _) => CaptureOf(s, s.lower.dirs[dir][name], OpRename, name, false, cap)
    case Setattr(ino, attr, _, cap, _) => CaptureOf(s, ino, OpSetattr, "", attr.size.Some?, cap)
    case Collection(now, window, stuck) => Gc(now, window, stuck)
    case Unmount => MountDown
    case Remount(err) => if err == 0 then MountUp else Idle
    case _ => Idle
  }

  // ---------------------------------------------------------------- rollback

  function Saved(va: Vault, v: Version): Option<Bytes> {
    if v.path in va.shadow then Some(va.shadow[v.path]) else None
  }

  predicate RestorePlays(va: Vault, v: Version, env: RollbackEnv) {
    RestoreLegal(Saved(va, v), env.restore)
  }

  /** What a recreated file holds after the restore, whatever the restore returned. */
  function Filled(va: Vault, v: Version, env: RollbackEnv): Bytes
    requires RestorePlays(va, v, env)
  {
    if v.hasData then Restore(Saved(va, v), [], env.restore).1 else []
  }

  /** Create `name` anew and fill it from the shadow file; the result of the restore is ignored. */
  function Recreate(va: Vault, lo: Lower, dir: string, name: string, v: Version, env: RollbackEnv): (int, Lower)
    requires dir in lo.dirs && RestorePlays(va, v, env)
  {
    if name in lo.dirs[dir] then (EEXIST, lo)
    else if env.lowerErr < 0 then (env.lowerErr, lo)
    else
      var node := Inode(Filled(va, v, env), env.uid, env.gid, v.stat.mode & env.keep);
      (0, SetNode(AddEntry(lo, dir, name, env.newIno), env.newIno, node))
  }

  /** The `if` chain of the ROLLBACK case for a path that resolves to `ino`, without the final SETATTR step. */
  function UndoMain(va: Vault, lo: Lower, dir: string, name: string, v: Version, env: RollbackEnv): (int, Lower)
    requires HasEntry(lo, dir, name) && lo.dirs[dir][name] in lo.nodes && RestorePlays(va, v, env)
  {
    var ino := lo.dirs[dir][name];
    if v.op == OpUnlink then
      if env.lookupErr < 0 then (0, lo) else Recreate(va, lo, dir, v.name, v, env)
    else if v.hasData then
      var (err, content) := Restore(Saved(va, v), lo.nodes[ino].content, env.restore);
      (err, SetNode(lo, ino, lo.nodes[ino].(content := content)))
    else if v.op == OpRename then
      if env.lookupErr < 0 then (env.lookupErr, lo)
      else if env.lowerErr < 0 then (env.lowerErr, lo)
      else (0, RenameEntry(lo, dir, name, dir, v.name))
    else (0, lo)
  }

  function Undo(va: Vault, lo: Lower, dir: string, name: string, v: Version, env: RollbackEnv): (int, Lower)
    requires HasEntry(lo, dir, name) && lo.dirs[dir][name] in lo.nodes && RestorePlays(va, v, env)
  {
    var ino := lo.dirs[dir][name];
    var (err, mid) := UndoMain(va, lo, dir, name, v, env);
    if err == 0 && v.op == OpSetattr && env.attrErr == 0 then
      (err, SetNode(mid, ino, mid.nodes[ino].(uid := v.stat.uid, gid := v.stat.gid, mode := v.stat.mode)))
    else (err, mid)
  }

  /** The version that a rollback of `path` to `ts` selects. */
  ghost function Selected(s: Fs, path: string, ts: nat): Option<Version> {
    match Resolve(s.lower, path)
    case Some(ino) => Find(ListOf(s.vault.store, ino), ts)
    case None =>
      if LastSlash(path) < 0 || BaseName(path) == "" then None
      else FindDeleted(s.vault.store, BaseName(path), ts)
  }

  ghost predicate RollbackLegal(s: Fs, path: string, ts: nat, env: RollbackEnv) {
    && env.lookupErr <= 0 && env.lowerErr <= 0 && env.attrErr <= 0
    && (Selected(s, path, ts).Some? ==> RestorePlays(s.vault, Selected(s, path, ts).value, env))
    && (Resolve(s.lower, path).Some? ==> Resolve(s.lower, path).value in s.lower.nodes)
  }

  /** What `rollback_deleted` does with the outcome of its search. */
  function RecreateFound(va: Vault, lo: Lower, dir: string, base: string, found: Option<Version>, env: RollbackEnv)
    : (int, Lower)
    requires found.Some? ==> RestorePlays(va, found.value, env)
  {
    if found.None? then (ENOENT, lo)
    else if dir in lo.foreign then (EINVAL, lo)
    else if dir !in lo.dirs then (ENOENT, lo)
    else if env.lookupErr < 0 then (env.lookupErr, lo)
    else Recreate(va, lo, dir, base, found.value, env)
  }

  /** `rollback_deleted`. */
  ghost function RollbackDeleted(s: Fs, path: string, ts: nat, env: RollbackEnv): (int, Lower)
    requires RollbackLegal(s, path, ts, env) && Resolve(s.lower, path).None?
  {
    if LastSlash(path) < 0 || BaseName(path) == "" then (EINVAL, s.lower)
    else RecreateFound(s.vault, s.lower, DirOf(path), BaseName(path), Selected(s, path, ts), env)
  }

  /** The ROLLBACK case of `cowfs_ctl_ioctl`. */
  ghost function Rollback(s: Fs, path: string, ts: nat, env: RollbackEnv): (int, Lower)
    requires RollbackLegal(s, path, ts, env)
  {
    if path in s.lower.foreign then (EINVAL, s.lower)
    else match Resolve(s.lower, path)
    case None => RollbackDeleted(s, path, ts, env)
    case Some(ino) =>
      match Selected(s, path, ts)
      case None => (ENOENT, s.lower)
      case Some(v) => Undo(s.vault, s.lower, DirOf(path), BaseName(path), v, env)
  }

  // ---------------------------------------------------------------- steps

  ghost predicate Enabled(s: Fs, e: Event) {
    && Defined(s, e)
    && Legal(s.vault, Recorded(s, e))
    && (e.RollbackTo? ==> RollbackLegal(s, e.path, e.ts, e.env))
  }

  ghost function LowerStep(s: Fs, e: Event): Lower
    requires Enabled(s, e)
  {
    var lo := s.lower;
    match e
    case Write(h, _, after) =>
      if s.handles[h].writable
      then SetNode(lo, s.handles[h].ino, lo.nodes[s.handles[h].ino].(content := after)) else lo
    case Unlink(dir, name, _, err) => if err == 0 then DropEntry(lo, dir, name) else lo
    case Rename(dir, name, newDir, newName, _, err) =>
      if err == 0 then RenameEntry(lo, dir, name, newDir, newName) else lo
    case Setattr(ino, attr, _, _, err) =>
      if err == 0 then SetNode(lo, ino, NotifyChange(lo.nodes[ino], attr)) else lo
    case Create(dir, name, ino, node) => SetNode(AddEntry(lo, dir, name, ino), ino, node)
    case Evict(ino) => lo.(nodes := lo.nodes - {ino})
    case RollbackTo(path, ts, env) => Rollback(s, path, ts, env).1
    case _ => lo
  }

  function HandleStep(s: Fs, e: Event): map<nat, Handle>
    requires Defined(s, e)
  {
    match e
    case Open(h, ino, writable) => s.handles[h := Handle(ino, writable, false)]
    case Close(h) => s.handles - {h}
    case Write(h, _, _) =>
      if Snapshots(s.handles[h]) then s.handles[h := s.handles[h].(snapshotTaken := true)] else s.handles
    case Setattr(_, attr, Some(h), _, 0) =>
      if attr.size.Some? then s.handles[h := s.handles[h].(snapshotTaken := true)] else s.handles
    case _ => s.handles
  }

  ghost function Step(s: Fs, e: Event): Fs
    requires Enabled(s, e)
  {
    Fs(VaultStep(s.vault, Recorded(s, e)), LowerStep(s, e), HandleStep(s, e))
  }

  // ---------------------------------------------------------------- runs

  ghost predicate ValidRun(s: Fs, es: seq<Event>)
    decreases |es|, 0
  {
    es == [] || (ValidRun(s, es[..|es| - 1]) && Enabled(Run(s, es[..|es| - 1]), es[|es| - 1]))
  }

  ghost function Run(s: Fs, es: seq<Event>): Fs
    requires ValidRun(s, es)
    decreases |es|, 1
  {
    if es == [] then s else Step(Run(s, es[..|es| - 1]), es[|es| - 1])
  }

  // ---------------------------------------------------------------- the invariant

  ghost predicate FsInv(s: Fs) {
    && VaultInv(s.vault)
    && LowerInv(s.lower)
    && forall h :: h in s.handles ==> s.handles[h].ino in s.lower.nodes
  }

  /** A first mount: no versions, no shadow files, no open handles; `err` is what `cowfs_shadow_init` returned. */
  function Mounted(root: string, lo: Lower, err: int): Fs {
    Fs(Vault(root, map[], map[], 0, err == 0), lo, map[])
  }

  lemma MountedInv(root: string, lo: Lower, err: int)
    requires ShortRoot(root) && LowerInv(lo)
    ensures FsInv(Mounted(root, lo, err))
  {
  }

  lemma RecreateInv(va: Vault, lo: Lower, dir: string, name: string, v: Version, env: RollbackEnv)
    requires dir in lo.dirs && RestorePlays(va, v, env) && LowerInv(lo)
    requires env.newIno !in lo.nodes && env.newIno < U64_RANGE && LegalName(name)
    ensures var r := Recreate(va, lo, dir, name, v, env).1; LowerInv(r) && lo.nodes.Keys <= r.nodes.Keys
  {
  }

  lemma UndoInv(va: Vault, lo: Lower, dir: string, name: string, v: Version, env: RollbackEnv)
    requires HasEntry(lo, dir, name) && lo.dirs[dir][name] in lo.nodes && RestorePlays(va, v, env) && LowerInv(lo)
    requires env.newIno !in lo.nodes && env.newIno < U64_RANGE
    requires v.op == OpUnlink || v.op == OpRename ==> LegalName(v.name)
    ensures var r := Undo(va, lo, dir, name, v, env).1; LowerInv(r) && lo.nodes.Keys <= r.nodes.Keys
  {
    if v.op == OpUnlink {
      RecreateInv(va, lo, dir, v.name, v, env);
    }
  }

  lemma SelectedOk(s: Fs, path: string, ts: nat)
    requires FsInv(s) && Selected(s, path, ts).Some?
    ensures exists ino :: ino in s.vault.store && Selected(s, path, ts).value in s.vault.store[ino]
                       && VersionOk(s.vault, ino, Selected(s, path, ts).value)
  {
    var v := Selected(s, path, ts).value;
    match Resolve(s.lower, path)
    case Some(ino) => assert VersionOk(s.vault, ino, v);
    case None =>
      var ino :| ino in s.vault.store && v in s.vault.store[ino];
      assert VersionOk(s.vault, ino, v);
  }

  lemma RollbackInv(s: Fs, path: string, ts: nat, env: RollbackEnv)
    requires FsInv(s) && RollbackLegal(s, path, ts, env)
    requires env.newIno !in s.lower.nodes && env.newIno < U64_RANGE
    ensures var r := Rollback(s, path, ts, env).1; LowerInv(r) && s.lower.nodes.Keys <= r.nodes.Keys
  {
    if path !in s.lower.foreign && Selected(s, path, ts).Some? {
      var v := Selected(s, path, ts).value;
      SelectedOk(s, path, ts);
      match Resolve(s.lower, path)
      case Some(ino) => UndoInv(s.vault, s.lower, DirOf(path), BaseName(path), v, env);
      case None =>
        if DirOf(path) in s.lower.dirs {
          RecreateInv(s.vault, s.lower, DirOf(path), BaseName(path), v, env);
        }
    }
  }

  lemma RenameInv(lo: Lower, dir: string, name: string, newDir: string, newName: string)
    requires LowerInv(lo) && HasEntry(lo, dir, name) && newDir in lo.dirs && LegalName(newName)
    ensures LowerInv(RenameEntry(lo, dir, name, newDir, newName))
  {
    var ino := lo.dirs[dir][name];
    var mid := DropEntry(lo, dir, name);
    forall d, n | HasEntry(mid, d, n) ensures LegalName(n) && mid.dirs[d][n] in mid.nodes {
      assert HasEntry(lo, d, n);
    }
    var r := AddEntry(mid, newDir, newName, ino);
    forall d, n | HasEntry(r, d, n) ensures LegalName(n) && r.dirs[d][n] in r.nodes {
      assert (d == newDir && n == newName) || HasEntry(mid, d, n);
    }
  }

  lemma NodeInv(lo: Lower, ino: nat, n: Inode)
    requires LowerInv(lo) && ino in lo.nodes
    ensures LowerInv(SetNode(lo, ino, n)) && SetNode(lo, ino, n).nodes.Keys == lo.nodes.Keys
  {
    forall d, nm | HasEntry(SetNode(lo, ino, n), d, nm) ensures LegalName(nm) {
      assert HasEntry(lo, d, nm);
    }
  }

  lemma DropInv(lo: Lower, dir: string, name: string)
    requires LowerInv(lo) && dir in lo.dirs
    ensures LowerInv(DropEntry(lo, dir, name))
  {
    var r := DropEntry(lo, dir, name);
    forall d, n | HasEntry(r, d, n) ensures LegalName(n) && r.dirs[d][n] in r.nodes {
      assert HasEntry(lo, d, n);
    }
  }

  lemma CreateInv(lo: Lower, dir: string, name: string, ino: nat, node: Inode)
    requires LowerInv(lo) && dir in lo.dirs && LegalName(name) && ino !in lo.nodes && ino < U64_RANGE
    ensures var r := SetNode(AddEntry(lo, dir, name, ino), ino, node);
      LowerInv(r) && lo.nodes.Keys <= r.nodes.Keys
  {
    var r := SetNode(AddEntry(lo, dir, name, ino), ino, node);
    forall d, n | HasEntry(r, d, n) ensures LegalName(n) && r.dirs[d][n] in r.nodes {
      assert (d == dir && n == name) || HasEntry(lo, d, n);
    }
  }

  lemma LowerStepInv(s: Fs, e: Event)
    requires FsInv(s) && Enabled(s, e)
    ensures LowerInv(LowerStep(s, e))
    ensures !e.Evict? ==> s.lower.nodes.Keys <= LowerStep(s, e).nodes.Keys
  {
    match e
    case RollbackTo(path, ts, env) => RollbackInv(s, path, ts, env);
    case Rename(dir, name, newDir, newName, _, _) => RenameInv(s.lower, dir, name, newDir, newName);
    case Create(dir, name, ino, node) => CreateInv(s.lower, dir, name, ino, node);
    case Unlink(dir, name, _, _) => DropInv(s.lower, dir, name);
    case Write(h, _, after) => NodeInv(s.lower, s.handles[h].ino, s.lower.nodes[s.handles[h].ino].(content := after));
    case Setattr(ino, attr, _, _, _) => NodeInv(s.lower, ino, NotifyChange(s.lower.nodes[ino], attr));
    case _ =>
  }

  /** Every step, whatever fails in it, keeps the invariant. */
  lemma StepInv(s: Fs, e: Event)
    requires FsInv(s) && Enabled(s, e)
    ensures FsInv(Step(s, e))
    ensures Step(s, e).vault.root == s.vault.root && Step(s, e).vault.clock >= s.vault.clock
  {
    VaultStepInv(s.vault, Recorded(s, e));
    LowerStepInv(s, e);
  }

  /** The invariant holds in every state of every run. */
  lemma {:induction false} RunInv(s: Fs, es: seq<Event>)
    requires FsInv(s) && ValidRun(s, es)
    ensures FsInv(Run(s, es))
    ensures Run(s, es).vault.root == s.vault.root && Run(s, es).vault.clock >= s.vault.clock
  {
    if es != [] {
      RunInv(s, es[..|es| - 1]);
      StepInv(Run(s, es[..|es| - 1]), es[|es| - 1]);
    }
  }
}
