/** What a rollback undoes: by kind of version, after a failed operation, after an unlink, after a failed restore. */
module Rollbacks {
  import opened CowTypes
  import opened ShadowNames
  import opened ShadowCopy
  import opened VersionLists
  import opened Vaults
  import opened LowerFs
  import opened CowFsModel
  import opened Histories

  /** Every lower call of the rollback succeeds and the restore, if there is one, is complete. */
  ghost predicate Smooth(va: Vault, v: Version, env: RollbackEnv) {
    && env.lookupErr == 0 && env.lowerErr == 0 && env.attrErr == 0
    && RestorePlays(va, v, env)
    && (v.hasData ==>
      && FullWrites(env.restore.io)
      && forall target: Bytes :: Restore(Saved(va, v), target, env.restore).0 == 0)
  }

  /** What undoing `v` means for one file: its content, owner and mode. */
  function Undone(va: Vault, v: Version, n: Inode): Inode {
    var n' := if v.hasData && v.path in va.shadow then n.(content := va.shadow[v.path]) else n;
    if v.op == OpSetattr then n'.(uid := v.stat.uid, gid := v.stat.gid, mode := v.stat.mode) else n'
  }

  /** What a smooth rollback of a version does to the file it is applied to. */
  lemma UndoDispatch(va: Vault, lo: Lower, dir: string, name: string, v: Version, env: RollbackEnv)
    requires HasEntry(lo, dir, name) && lo.dirs[dir][name] in lo.nodes && Smooth(va, v, env)
    requires v.op != OpUnlink && (v.op == OpRename ==> !v.hasData) && (v.hasData ==> v.path in va.shadow)
    ensures var ino := lo.dirs[dir][name];
      Undo(va, lo, dir, name, v, env)
      == (0, (if v.op == OpRename then RenameEntry(lo, dir, name, dir, v.name) else lo)
             .(nodes := lo.nodes[ino := Undone(va, v, lo.nodes[ino])]))
  {
    var ino := lo.dirs[dir][name];
    if v.hasData {
      RestoreSucceeds(Saved(va, v), lo.nodes[ino].content, env.restore);
    }
    assert lo.nodes == lo.nodes[ino := lo.nodes[ino]];
    assert Undo(va, lo, dir, name, v, env).1.nodes == lo.nodes[ino := Undone(va, v, lo.nodes[ino])];
  }

  /**
   * Dispatch in every reachable state: WRITE gives back the content, SETATTR owner and mode and, if it saved data,
   * the content, RENAME the name; nothing else in the lower file system changes.
   */
  lemma Dispatch(s: Fs, path: string, ts: nat, env: RollbackEnv)
    requires FsInv(s) && RollbackLegal(s, path, ts, env) && path !in s.lower.foreign
    requires Resolve(s.lower, path).Some? && Selected(s, path, ts).Some?
    requires Selected(s, path, ts).value.op != OpUnlink
    requires Smooth(s.vault, Selected(s, path, ts).value, env)
    ensures var ino := Resolve(s.lower, path).value;
      var v := Selected(s, path, ts).value;
      var moved := if v.op == OpRename
                   then RenameEntry(s.lower, DirOf(path), BaseName(path), DirOf(path), v.name) else s.lower;
      Rollback(s, path, ts, env) == (0, moved.(nodes := s.lower.nodes[ino := Undone(s.vault, v, s.lower.nodes[ino])]))
  {
    var v := Selected(s, path, ts).value;
    assert VersionOk(s.vault, Resolve(s.lower, path).value, v);
    UndoDispatch(s.vault, s.lower, DirOf(path), BaseName(path), v, env);
  }

  /** The name of the file after the rollback of `v`. */
  function NameBefore(v: Version, name: string): string {
    if v.op == OpRename then v.name else name
  }

  lemma UndoneTwice(va: Vault, v: Version, n: Inode)
    ensures Undone(va, v, Undone(va, v, n)) == Undone(va, v, n)
  {
  }

  /** Undoing a version a second time, under the name that the file has by then, succeeds and changes nothing. */
  lemma UndoTwice(va: Vault, lo: Lower, dir: string, name: string, v: Version, first: RollbackEnv, second: RollbackEnv)
    requires HasEntry(lo, dir, name) && lo.dirs[dir][name] in lo.nodes && Smooth(va, v, first) && Smooth(va, v, second)
    requires v.op != OpUnlink && (v.op == OpRename ==> !v.hasData) && (v.hasData ==> v.path in va.shadow)
    ensures var (again, r) := (NameBefore(v, name), Undo(va, lo, dir, name, v, first).1);
      && HasEntry(r, dir, again) && r.dirs[dir][again] == lo.dirs[dir][name] && r.dirs[dir][again] in r.nodes
      && Undo(va, r, dir, again, v, second) == (0, r)
  {
    var ino, r := lo.dirs[dir][name], Undo(va, lo, dir, name, v, first).1;
    UndoDispatch(va, lo, dir, name, v, first);
    UndoneTwice(va, v, lo.nodes[ino]);
    UndoDispatch(va, r, dir, NameBefore(v, name), v, second);
    assert r.nodes[ino := r.nodes[ino]] == r.nodes;
  }

  /** A rollback through a path that resolves undoes the version that it selects. */
  lemma RollbackIsUndo(s: Fs, path: string, ts: nat, env: RollbackEnv)
    requires FsInv(s) && RollbackLegal(s, path, ts, env) && path !in s.lower.foreign
    requires Resolve(s.lower, path).Some? && Selected(s, path, ts).Some?
    ensures var v := Selected(s, path, ts).value;
      && VersionOk(s.vault, Resolve(s.lower, path).value, v)
      && Rollback(s, path, ts, env) == Undo(s.vault, s.lower, DirOf(path), BaseName(path), v, env)
  {
  }

  /**
   * A rollback does not use its version up: repeated at once, under the name that the file now has, it succeeds again
   * and changes nothing.
   */
  lemma RollbackTwice(s: Fs, path: string, ts: nat, first: RollbackEnv, again: string, second: RollbackEnv)
    requires FsInv(s) && Enabled(s, RollbackTo(path, ts, first)) && path !in s.lower.foreign
    requires Resolve(s.lower, path).Some? && Selected(s, path, ts).Some?
    requires var v := Selected(s, path, ts).value;
      && v.op != OpUnlink && Smooth(s.vault, v, first) && Smooth(s.vault, v, second)
      && again == Join(DirOf(path), NameBefore(v, BaseName(path))) && again !in s.lower.foreign
    ensures var t := Step(s, RollbackTo(path, ts, first));
      RollbackLegal(t, again, ts, second) && Rollback(t, again, ts, second) == (0, t.lower)
  {
    AfterRollback(s, path, ts, first);
    NameSplits(s, path, ts);
    UndoAgain(s, path, ts, first, Rollback(s, path, ts, first).1, again, second);
  }

  lemma UndoAgain(s: Fs, path: string, ts: nat, first: RollbackEnv, lo: Lower, again: string, second: RollbackEnv)
    requires FsInv(s) && RollbackLegal(s, path, ts, first) && path !in s.lower.foreign
    requires Resolve(s.lower, path).Some? && Selected(s, path, ts).Some?
    requires Selected(s, path, ts).value.op != OpUnlink
    requires Smooth(s.vault, Selected(s, path, ts).value, first)
    requires Smooth(s.vault, Selected(s, path, ts).value, second)
    requires lo == Rollback(s, path, ts, first).1 && FsInv(s.(lower := lo))
    requires LastSlash(again) >= 0 && DirOf(again) == DirOf(path) && again !in s.lower.foreign
    requires BaseName(again) == NameBefore(Selected(s, path, ts).value, BaseName(path))
    ensures RollbackLegal(s.(lower := lo), again, ts, second)
    ensures Rollback(s.(lower := lo), again, ts, second) == (0, lo)
  {
    var v := Selected(s, path, ts).value;
    RollbackIsUndo(s, path, ts, first);
    UndoTwice(s.vault, s.lower, DirOf(path), BaseName(path), v, first, second);
    SelectsTheSame(s, path, lo, again, ts);
    assert lo.foreign == s.lower.foreign;
    RollbackIsUndo(s.(lower := lo), again, ts, second);
  }

  lemma AfterRollback(s: Fs, path: string, ts: nat, env: RollbackEnv)
    requires FsInv(s) && Enabled(s, RollbackTo(path, ts, env))
    ensures var t := Step(s, RollbackTo(path, ts, env));
      t == s.(lower := Rollback(s, path, ts, env).1) && FsInv(t)
  {
    StepInv(s, RollbackTo(path, ts, env));
  }

  lemma NameSplits(s: Fs, path: string, ts: nat)
    requires FsInv(s) && Resolve(s.lower, path).Some? && Selected(s, path, ts).Some?
    ensures var name := NameBefore(Selected(s, path, ts).value, BaseName(path));
      && LastSlash(Join(DirOf(path), name)) >= 0
      && DirOf(Join(DirOf(path), name)) == DirOf(path) && BaseName(Join(DirOf(path), name)) == name
  {
    var v := Selected(s, path, ts).value;
    assert VersionOk(s.vault, Resolve(s.lower, path).value, v);
    assert HasEntry(s.lower, DirOf(path), BaseName(path));
    JoinSplits(DirOf(path), NameBefore(v, BaseName(path)));
  }

  /** The version that is selected depends on the inode, not on the path. */
  lemma SelectsTheSame(s: Fs, path: string, lo: Lower, again: string, ts: nat)
    requires Resolve(s.lower, path).Some? && Resolve(lo, again) == Resolve(s.lower, path)
    ensures Selected(s.(lower := lo), again, ts) == Selected(s, path, ts)
  {
  }

  /** A rollback of data that fails changes one content only: to itself or to a prefix of the saved bytes. */
  lemma FailedRestore(s: Fs, path: string, ts: nat, env: RollbackEnv)
    requires FsInv(s) && RollbackLegal(s, path, ts, env) && path !in s.lower.foreign
    requires Resolve(s.lower, path).Some? && Selected(s, path, ts).Some?
    requires Selected(s, path, ts).value.op != OpUnlink && Selected(s, path, ts).value.hasData
    requires Rollback(s, path, ts, env).0 != 0 && FullWrites(env.restore.io)
    ensures var ino := Resolve(s.lower, path).value;
      var v := Selected(s, path, ts).value;
      var lo := Rollback(s, path, ts, env).1;
      && v.path in s.vault.shadow && ino in lo.nodes
      && (lo.nodes[ino].content == s.lower.nodes[ino].content || lo.nodes[ino].content <= s.vault.shadow[v.path])
      && lo == SetNode(s.lower, ino, s.lower.nodes[ino].(content := lo.nodes[ino].content))
  {
    var ino := Resolve(s.lower, path).value;
    var v := Selected(s, path, ts).value;
    assert VersionOk(s.vault, ino, v);
    FailedRestoreLeavesPrefix(Saved(s.vault, v), s.lower.nodes[ino].content, env.restore);
  }

  /** What undoing a version with data gives does not depend on the content that was there. */
  lemma UndoIgnoresContent(va: Vault, lo: Lower, dir: string, name: string, v: Version, c: Bytes, env: RollbackEnv)
    requires HasEntry(lo, dir, name) && lo.dirs[dir][name] in lo.nodes
    requires v.op != OpUnlink && v.hasData && v.path in va.shadow && Smooth(va, v, env)
    ensures var ino := lo.dirs[dir][name];
      Undo(va, SetNode(lo, ino, lo.nodes[ino].(content := c)), dir, name, v, env)
      == (0, SetNode(lo, ino, Undone(va, v, lo.nodes[ino])))
  {
    var ino := lo.dirs[dir][name];
    var lo1 := SetNode(lo, ino, lo.nodes[ino].(content := c));
    RestoreSucceeds(Saved(va, v), c, env.restore);
    assert Undo(va, lo1, dir, name, v, env).1.nodes == lo.nodes[ino := Undone(va, v, lo.nodes[ino])];
  }

  lemma RollbackIgnoresContent(s: Fs, content: Bytes, path: string, ts: nat, env: RollbackEnv)
    requires FsInv(s) && path !in s.lower.foreign
    requires Resolve(s.lower, path).Some? && Selected(s, path, ts).Some?
    requires Resolve(s.lower, path).value in s.lower.nodes
    requires Selected(s, path, ts).value.op != OpUnlink && Selected(s, path, ts).value.hasData
    requires Smooth(s.vault, Selected(s, path, ts).value, env)
    ensures var ino := Resolve(s.lower, path).value;
      var t := s.(lower := SetNode(s.lower, ino, s.lower.nodes[ino].(content := content)));
      && RollbackLegal(t, path, ts, env)
      && Rollback(t, path, ts, env)
         == (0, SetNode(s.lower, ino, Undone(s.vault, Selected(s, path, ts).value, s.lower.nodes[ino])))
  {
    var ino := Resolve(s.lower, path).value;
    var v := Selected(s, path, ts).value;
    assert VersionOk(s.vault, ino, v);
    var t := s.(lower := SetNode(s.lower, ino, s.lower.nodes[ino].(content := content)));
    assert Resolve(t.lower, path) == Some(ino) && Selected(t, path, ts) == Some(v);
    UndoIgnoresContent(s.vault, s.lower, DirOf(path), BaseName(path), v, content, env);
  }

  /**
   * After such a failure the version is still there with its data: a later successful rollback to it
   * gives back all of the saved content, as if the first one had not been tried.
   */
  lemma FailedRestoreIsRecoverable(s: Fs, path: string, ts: nat, first: RollbackEnv, second: RollbackEnv)
    requires FsInv(s) && Enabled(s, RollbackTo(path, ts, first)) && path !in s.lower.foreign
    requires Resolve(s.lower, path).Some? && Selected(s, path, ts).Some?
    requires Selected(s, path, ts).value.op != OpUnlink && Selected(s, path, ts).value.hasData
    requires Rollback(s, path, ts, first).0 != 0 && FullWrites(first.restore.io)
    requires Smooth(s.vault, Selected(s, path, ts).value, second)
    ensures var ino := Resolve(s.lower, path).value;
      var t := Step(s, RollbackTo(path, ts, first));
      && RollbackLegal(t, path, ts, second)
      && Rollback(t, path, ts, second)
         == (0, SetNode(s.lower, ino, Undone(s.vault, Selected(s, path, ts).value, s.lower.nodes[ino])))
  {
    FailedRestore(s, path, ts, first);
    var ino := Resolve(s.lower, path).value;
    var lo := Rollback(s, path, ts, first).1;
    RollbackIgnoresContent(s, lo.nodes[ino].content, path, ts, second);
    assert Step(s, RollbackTo(path, ts, first)) == s.(lower := lo);
  }

  /** The other entries of a directory. */
  function Besides(lo: Lower, dir: string, name: string): map<string, nat>
    requires dir in lo.dirs
  {
    lo.dirs[dir] - {name}
  }

  /** The other entries of a directory are all still there and lead to the same files. */
  ghost predicate Spares(before: Lower, after: Lower, dir: string, name: string) {
    forall n :: n != name && HasEntry(before, dir, n) ==>
      HasEntry(after, dir, n) && after.dirs[dir][n] == before.dirs[dir][n]
  }

  /**
   * The rollback of a rename replaces whatever now has the old name, and records nothing about it: the other names of
   * the directory keep leading to their files exactly when the old name is free or one more name of the same file.
   */
  lemma RenameRollbackSparesOthersIff(s: Fs, path: string, ts: nat, env: RollbackEnv)
    requires FsInv(s) && RollbackLegal(s, path, ts, env) && path !in s.lower.foreign
    requires Resolve(s.lower, path).Some? && Selected(s, path, ts).Some?
    requires Selected(s, path, ts).value.op == OpRename && Smooth(s.vault, Selected(s, path, ts).value, env)
    ensures var (d, v) := (DirOf(path), Selected(s, path, ts).value);
      Spares(s.lower, Rollback(s, path, ts, env).1, d, BaseName(path))
      <==> (v.name in Besides(s.lower, d, BaseName(path)) ==> Some(s.lower.dirs[d][v.name]) == Resolve(s.lower, path))
  {
    RenameSparesOthersIff(s.lower, DirOf(path), BaseName(path), Selected(s, path, ts).value.name);
    Dispatch(s, path, ts, env);
  }

  lemma RenameSparesOthersIff(lo: Lower, dir: string, name: string, newName: string)
    requires HasEntry(lo, dir, name)
    ensures Spares(lo, RenameEntry(lo, dir, name, dir, newName), dir, name)
       <==> (newName in Besides(lo, dir, name) ==> lo.dirs[dir][newName] == lo.dirs[dir][name])
  {
    var r := RenameEntry(lo, dir, name, dir, newName);
    if newName in Besides(lo, dir, name) && lo.dirs[dir][newName] != lo.dirs[dir][name] {
      assert HasEntry(lo, dir, newName) && r.dirs[dir][newName] != lo.dirs[dir][newName];
    }
  }

  /** Renaming back under the old name, in the directory where the file is now, undoes the rename. */
  predicate ComesBack(lo: Lower, dir: string, name: string, newDir: string, newName: string)
    requires HasEntry(lo, dir, name)
  {
    var ino := lo.dirs[dir][name];
    if HasEntry(lo, newDir, newName) && lo.dirs[newDir][newName] == ino
    then HasEntry(lo, newDir, name) && lo.dirs[newDir][name] == ino
    else dir == newDir && newName !in lo.dirs[dir]
  }

  lemma ThereAndBackIff(lo: Lower, dir: string, name: string, newDir: string, newName: string)
    requires HasEntry(lo, dir, name) && newDir in lo.dirs
    ensures var there := RenameEntry(lo, dir, name, newDir, newName);
      && HasEntry(there, newDir, newName) && there.dirs[newDir][newName] == lo.dirs[dir][name]
      && (RenameEntry(there, newDir, newName, newDir, name) == lo <==> ComesBack(lo, dir, name, newDir, newName))
  {
    var there := RenameEntry(lo, dir, name, newDir, newName);
    var back := RenameEntry(there, newDir, newName, newDir, name);
    if ComesBack(lo, dir, name, newDir, newName) {
      assert back.dirs[newDir] == lo.dirs[newDir];
      assert back.dirs == lo.dirs;
    } else if there == lo {
      assert newName !in back.dirs[newDir];
    } else if dir != newDir {
      assert name !in back.dirs[dir];
    } else {
      assert newName !in back.dirs[dir];
    }
  }

  /**
   * The rollback of a captured rename, asked for at once under the new name, always returns 0. It undoes the rename
   * exactly when that stayed in its directory and took a free name; if it led to another name of the same file, and so
   * did nothing, exactly when the old name is one more in that directory.
   */
  lemma RenameUndoneIff(s: Fs, e: Event, env: RollbackEnv)
    requires FsInv(s) && Enabled(s, e) && e.Rename? && e.err == 0 && CaptureSucceeds(s, Recorded(s, e))
    requires Join(e.newDir, e.newName) !in s.lower.foreign
    requires Smooth(Step(s, e).vault, NewVersion(s.vault, Recorded(s, e)), env)
    ensures RollbackLegal(Step(s, e), Join(e.newDir, e.newName), 0, env)
    ensures var r := Rollback(Step(s, e), Join(e.newDir, e.newName), 0, env);
      && r == (0, RenameEntry(Step(s, e).lower, e.newDir, e.newName, e.newDir, e.name))
      && (r.1 == s.lower <==> ComesBack(s.lower, e.dir, e.name, e.newDir, e.newName))
  {
    var n, path, v := Step(s, e), Join(e.newDir, e.newName), NewVersion(s.vault, Recorded(s, e));
    var ino := s.lower.dirs[e.dir][e.name];
    ThereAndBackIff(s.lower, e.dir, e.name, e.newDir, e.newName);
    CaptureSaves(s, e);
    StepInv(s, e);
    JoinSplits(e.newDir, e.newName);
    assert n.vault.store[ino][0] == v;
    SelectsByTime(n, path, ino, v);
    RenameRolledBack(n, path, v, env);
  }

  lemma RenameRolledBack(s: Fs, path: string, v: Version, env: RollbackEnv)
    requires FsInv(s) && path !in s.lower.foreign && Resolve(s.lower, path).Some? && Selected(s, path, 0) == Some(v)
    requires v.op == OpRename && Smooth(s.vault, v, env)
    ensures RollbackLegal(s, path, 0, env)
    ensures Rollback(s, path, 0, env)
         == (0, RenameEntry(s.lower, DirOf(path), BaseName(path), DirOf(path), v.name))
  {
    var ino := Resolve(s.lower, path).value;
    assert VersionOk(s.vault, ino, v);
    assert HasEntry(s.lower, DirOf(path), BaseName(path));
    Dispatch(s, path, 0, env);
    assert s.lower.nodes[ino := s.lower.nodes[ino]] == s.lower.nodes;
  }

  // ---------------------------------------------------------------- errors that a rollback does not report

  /**
   * Recreating a deleted file reports success whatever became of its content: the new file holds the saved bytes
   * exactly when the unreported restore delivered all of them.
   */
  lemma RecreatedContentIff(va: Vault, lo: Lower, dir: string, name: string, v: Version, env: RollbackEnv)
    requires dir in lo.dirs && RestorePlays(va, v, env) && v.hasData && v.path in va.shadow
    requires Recreate(va, lo, dir, name, v, env).0 == 0 && env.lowerErr <= 0
    ensures var r := Recreate(va, lo, dir, name, v, env).1;
      && HasEntry(r, dir, name) && r.dirs[dir][name] == env.newIno && env.newIno in r.nodes
      && (r.nodes[env.newIno].content == va.shadow[v.path] <==> Delivers(va.shadow[v.path], [], env.restore))
  {
    RestoreExactIff(va.shadow[v.path], [], env.restore);
  }

  /**
   * The rollback of a missing path: when it returns 0 there is a new file of that name, and it holds the saved bytes
   * exactly when the restore, whose result is dropped, delivered all of them.
   */
  lemma MissingRollbackIff(s: Fs, path: string, ts: nat, env: RollbackEnv)
    requires FsInv(s) && Enabled(s, RollbackTo(path, ts, env)) && path !in s.lower.foreign
    requires Resolve(s.lower, path).None? && Rollback(s, path, ts, env).0 == 0
    ensures LastSlash(path) >= 0 && Selected(s, path, ts).Some?
    ensures var (d, v, r) := (DirOf(path), Selected(s, path, ts).value, Rollback(s, path, ts, env).1);
      && HasEntry(r, d, BaseName(path)) && r.dirs[d][BaseName(path)] == env.newIno && env.newIno in r.nodes
      && v.path in s.vault.shadow
      && (r.nodes[env.newIno].content == s.vault.shadow[v.path] <==> Delivers(s.vault.shadow[v.path], [], env.restore))
  {
    var v := Selected(s, path, ts).value;
    SelectedOk(s, path, ts);
    RecreatedContentIff(s.vault, s.lower, DirOf(path), BaseName(path), v, env);
  }

  /**
   * The rollback of an UNLINK version through a path that resolves drops the error of its lookup: when it returns 0,
   * the deleted name leads to the new file exactly when that lookup succeeded, and otherwise nothing was done.
   * What the new file holds is subject to the dropped restore error as well.
   */
  lemma UnlinkRollbackIff(s: Fs, path: string, ts: nat, env: RollbackEnv)
    requires FsInv(s) && Enabled(s, RollbackTo(path, ts, env)) && path !in s.lower.foreign
    requires Resolve(s.lower, path).Some? && Selected(s, path, ts).Some?
    requires Selected(s, path, ts).value.op == OpUnlink && Rollback(s, path, ts, env).0 == 0
    ensures var (d, v, r) := (DirOf(path), Selected(s, path, ts).value, Rollback(s, path, ts, env).1);
      && v.path in s.vault.shadow
      && (HasEntry(r, d, v.name) && r.dirs[d][v.name] == env.newIno <==> env.lookupErr == 0)
      && (env.lookupErr != 0 ==> r == s.lower)
      && (env.lookupErr == 0 ==>
          env.newIno in r.nodes
          && (r.nodes[env.newIno].content == s.vault.shadow[v.path]
              <==> Delivers(s.vault.shadow[v.path], [], env.restore)))
  {
    var d, v := DirOf(path), Selected(s, path, ts).value;
    assert VersionOk(s.vault, Resolve(s.lower, path).value, v);
    if env.lookupErr == 0 {
      RecreatedContentIff(s.vault, s.lower, d, v.name, v, env);
    }
  }

  /**
   * The result of the last step of a SETATTR rollback is dropped: a rollback that returns 0 has restored owner and
   * mode exactly when that step succeeded, or when they were right already.
   */
  lemma SetattrRollbackIff(s: Fs, path: string, ts: nat, env: RollbackEnv)
    requires FsInv(s) && RollbackLegal(s, path, ts, env) && path !in s.lower.foreign
    requires Resolve(s.lower, path).Some? && Selected(s, path, ts).Some?
    requires Selected(s, path, ts).value.op == OpSetattr && Rollback(s, path, ts, env).0 == 0
    ensures var ino := Resolve(s.lower, path).value;
      var v := Selected(s, path, ts).value;
      var r := Rollback(s, path, ts, env).1;
      && ino in r.nodes
      && (StatOf(r.nodes[ino]) == v.stat <==> env.attrErr == 0 || StatOf(s.lower.nodes[ino]) == v.stat)
  {
    assert VersionOk(s.vault, Resolve(s.lower, path).value, Selected(s, path, ts).value);
  }

  // ---------------------------------------------------------------- undoing an operation that failed

  /** The operations that record a version and then may fail in the lower file system. */
  predicate Fails(e: Event) {
    && (e.Unlink? || e.Rename? || e.Setattr?)
    && e.err != 0
  }

  /** The inode whose history the operation extends. */
  function Target(s: Fs, e: Event): nat
    requires Defined(s, e) && (e.Unlink? || e.Rename? || e.Setattr?)
  {
    if e.Setattr? then e.ino else s.lower.dirs[e.dir][e.name]
  }

  /** A failed operation leaves its version first in the list and the lower file system as it was. */
  lemma FailedOperationRecords(s: Fs, e: Event, path: string)
    requires FsInv(s) && Enabled(s, e) && Fails(e) && CaptureSucceeds(s, Recorded(s, e))
    requires Resolve(s.lower, path) == Some(Target(s, e))
    ensures FsInv(Step(s, e)) && Step(s, e).lower == s.lower
    ensures Selected(Step(s, e), path, 0) == Some(NewVersion(s.vault, Recorded(s, e)))
    ensures Recorded(s, e).withData ==>
      Saved(Step(s, e).vault, NewVersion(s.vault, Recorded(s, e))) == Some(s.lower.nodes[Target(s, e)].content)
  {
    var ino := Target(s, e);
    CaptureSaves(s, e);
    StepInv(s, e);
    assert Step(s, e).vault.store[ino][0] == NewVersion(s.vault, Recorded(s, e));
  }

  /** The rollback of a failed unlink finds the name taken. */
  lemma UndoFailedUnlink(s: Fs, e: Event, env: RollbackEnv)
    requires FsInv(s) && Enabled(s, e) && e.Unlink? && e.err != 0 && CaptureSucceeds(s, Recorded(s, e))
    requires Join(e.dir, e.name) !in s.lower.foreign && env.lookupErr == 0
    requires RollbackLegal(Step(s, e), Join(e.dir, e.name), 0, env)
    ensures Rollback(Step(s, e), Join(e.dir, e.name), 0, env) == (EEXIST, s.lower)
  {
    JoinSplits(e.dir, e.name);
    FailedOperationRecords(s, e, Join(e.dir, e.name));
  }

  /** Undoing a version that saved the state that is still there changes nothing. */
  lemma UndoneAtOnce(va: Vault, v: Version, n: Inode)
    requires v.stat == StatOf(n) && (v.hasData ==> Saved(va, v) == Some(n.content))
    ensures Undone(va, v, n) == n
  {
  }

  /**
   * The rollback of a failed rename or setattr restores what is there already: the file's own name,
   * or the content, owner and mode that the failed call left alone.
   */
  lemma UndoFailedOperation(s: Fs, e: Event, path: string, env: RollbackEnv)
    requires FsInv(s) && Enabled(s, e) && Fails(e) && !e.Unlink? && CaptureSucceeds(s, Recorded(s, e))
    requires path !in s.lower.foreign && Resolve(s.lower, path) == Some(Target(s, e))
    requires e.Rename? ==> path == Join(e.dir, e.name)
    requires RollbackLegal(Step(s, e), path, 0, env)
    requires Smooth(Step(s, e).vault, NewVersion(s.vault, Recorded(s, e)), env)
    ensures Rollback(Step(s, e), path, 0, env) == (0, s.lower)
  {
    var n := Step(s, e);
    var v := NewVersion(s.vault, Recorded(s, e));
    FailedOperationRecords(s, e, path);
    if e.Rename? {
      JoinSplits(e.dir, e.name);
    }
    UndoesToTheSame(n, path, v, env);
  }

  /** The rollback of a version that saved what is still there. */
  lemma UndoesToTheSame(s: Fs, path: string, v: Version, env: RollbackEnv)
    requires FsInv(s) && RollbackLegal(s, path, 0, env) && path !in s.lower.foreign
    requires Resolve(s.lower, path).Some? && Selected(s, path, 0) == Some(v) && Smooth(s.vault, v, env)
    requires v.op != OpUnlink && (v.op == OpRename ==> v.name == BaseName(path))
    requires var n := s.lower.nodes[Resolve(s.lower, path).value];
      v.stat == StatOf(n) && (v.hasData ==> Saved(s.vault, v) == Some(n.content))
    ensures Rollback(s, path, 0, env) == (0, s.lower)
  {
    var ino := Resolve(s.lower, path).value;
    Dispatch(s, path, 0, env);
    UndoneAtOnce(s.vault, v, s.lower.nodes[ino]);
    assert s.lower.nodes[ino := s.lower.nodes[ino]] == s.lower.nodes;
  }

  // ---------------------------------------------------------------- unlink and back

  /** An unlink of a file with this base name, in whatever directory. */
  predicate UnlinksName(e: Event, name: string) {
    e.Unlink? && e.name == name
  }

  lemma UnlinkOrigin(s: Fs, es: seq<Event>, i: nat, j: nat, b: Version)
    requires ValidRun(s, es) && Origin(s, es, i, j, b) && b.op == OpUnlink
    ensures UnlinksName(es[i], b.name)
  {
  }

  /** An UNLINK version is found by its own timestamp as long as it is listed. */
  lemma FoundByItsTime(va: Vault, ino: nat, v: Version)
    requires VaultInv(va) && ino in va.store && v in va.store[ino] && v.op == OpUnlink
    ensures FindDeleted(va.store, v.name, v.ts) == Some(v)
  {
    var r := FindDeleted(va.store, v.name, v.ts);
    assert Stored(va.store, v) && Matches(v, v.name, v.ts);
    var j :| j in va.store && r.value in va.store[j];
    SameTime(va, ino, v, j, r.value);
  }

  /** The list of `j` holds an UNLINK version of that name that is newer than `ts`. */
  ghost predicate NewerListed(va: Vault, name: string, ts: nat, j: nat, w: Version) {
    j in va.store && w in va.store[j] && w.op == OpUnlink && w.name == name && w.ts > ts
  }

  lemma NotFoundByZero(va: Vault, v: Version, j: nat, w: Version)
    requires NewerListed(va, v.name, v.ts, j, w)
    ensures FindDeleted(va.store, v.name, 0) != Some(v)
  {
    assert Stored(va.store, w) && Matches(w, v.name, 0);
  }

  lemma NewerFoundByZero(va: Vault, ino: nat, v: Version) returns (j: nat, w: Version)
    requires VaultInv(va) && ino in va.store && v in va.store[ino] && v.op == OpUnlink
    requires FindDeleted(va.store, v.name, 0) != Some(v)
    ensures NewerListed(va, v.name, v.ts, j, w)
  {
    assert Stored(va.store, v) && Matches(v, v.name, 0);
    w := FindDeleted(va.store, v.name, 0).value;
    j :| j in va.store && w in va.store[j];
    if w.ts == v.ts {
      SameTime(va, ino, v, j, w);
    }
  }

  /** By timestamp 0 it is found exactly when no newer UNLINK version of the same base name is listed anywhere. */
  lemma FoundByZeroIff(va: Vault, ino: nat, v: Version)
    requires VaultInv(va) && ino in va.store && v in va.store[ino] && v.op == OpUnlink
    ensures FindDeleted(va.store, v.name, 0) == Some(v) <==> !exists j, w :: NewerListed(va, v.name, v.ts, j, w)
  {
    if FindDeleted(va.store, v.name, 0) != Some(v) {
      var j, w := NewerFoundByZero(va, ino, v);
    } else if j, w :| NewerListed(va, v.name, v.ts, j, w) {
      NotFoundByZero(va, v, j, w);
    }
  }

  /** Step `i` of the run unlinks a file of that base name, and the version it recorded is listed at the end. */
  ghost predicate ListedUnlink(s: Fs, es: seq<Event>, i: nat, name: string)
    requires ValidRun(s, es)
  {
    && i < |es| && UnlinksName(es[i], name)
    && var si := At(s, es, i);
       var r := Recorded(si, es[i]);
    && Published(si.vault, r).Some?
    && Published(si.vault, r).value in ListOf(Run(s, es).vault.store, r.ino)
  }

  /** A version published in the run is newer than everything listed before it. */
  lemma PublishedLater(s: Fs, es: seq<Event>, i: nat)
    requires FsInv(s) && ValidRun(s, es) && i < |es|
    requires Recorded(At(s, es, i), es[i]).Capture?
    requires Published(At(s, es, i).vault, Recorded(At(s, es, i), es[i])).Some?
    ensures Published(At(s, es, i).vault, Recorded(At(s, es, i), es[i])).value.ts > s.vault.clock
  {
    var si := At(s, es, i);
    RunInv(s, es[..i]);
    assert Legal(si.vault, Recorded(si, es[i]));
  }

  lemma ListedUnlinkIsNewer(s: Fs, es: seq<Event>, i: nat, name: string)
    requires FsInv(s) && ValidRun(s, es) && ListedUnlink(s, es, i, name)
    ensures exists j, w :: NewerListed(Run(s, es).vault, name, s.vault.clock, j, w)
  {
    var si := At(s, es, i);
    var r := Recorded(si, es[i]);
    var w := Published(si.vault, r).value;
    PublishedLater(s, es, i);
    assert NewerListed(Run(s, es).vault, name, s.vault.clock, r.ino, w);
  }

  lemma NewerWasUnlinked(s: Fs, es: seq<Event>, name: string, j: nat, w: Version) returns (i: nat)
    requires FsInv(s) && ValidRun(s, es) && NewerListed(Run(s, es).vault, name, s.vault.clock, j, w)
    ensures ListedUnlink(s, es, i, name)
  {
    assert w !in ListOf(s.vault.store, j);
    i := HasOrigin(s, es, j, w);
    UnlinkOrigin(s, es, i, j, w);
  }

  /**
   * After a run the table-wide search for a deleted file finds `v` by its timestamp as long as it is listed, and by
   * timestamp 0 exactly when no later unlink of that base name, in any directory, has left a version that is still
   * listed.
   */
  lemma FindsTheDeletedIff(s: Fs, es: seq<Event>, ino: nat, v: Version)
    requires FsInv(s) && ValidRun(s, es) && v in ListOf(Run(s, es).vault.store, ino)
    requires v.op == OpUnlink && v.ts == s.vault.clock
    ensures FindDeleted(Run(s, es).vault.store, v.name, v.ts) == Some(v)
    ensures FindDeleted(Run(s, es).vault.store, v.name, 0) == Some(v)
       <==> forall i :: 0 <= i < |es| ==> !ListedUnlink(s, es, i, v.name)
  {
    RunInv(s, es);
    var n := Run(s, es).vault;
    FoundByItsTime(n, ino, v);
    FoundByZeroIff(n, ino, v);
    if j, w :| NewerListed(n, v.name, v.ts, j, w) {
      var i := NewerWasUnlinked(s, es, v.name, j, w);
    }
    if i :| 0 <= i < |es| && ListedUnlink(s, es, i, v.name) {
      ListedUnlinkIsNewer(s, es, i, v.name);
    }
  }

  /** A run that neither pushes the version out of its list nor lets it expire. */
  ghost predicate Retains(s: Fs, e: Event, es: seq<Event>)
    requires Enabled(s, e) && e.Unlink? && ValidRun(Step(s, e), es)
  {
    AddCount(Step(s, e), es, Target(s, e)) < MAX_VERSIONS && NeverExpired(es, e.cap.ts)
  }

  /**
   * A rollback of a missing path looks at the base name only: in whatever directory it is asked for, it makes a file
   * with the content of the file of that name that was unlinked at `ts`, or last among the listed ones if `ts` is 0.
   */
  lemma RollbackOfMissing(s: Fs, e: Event, es: seq<Event>, dir: string, ts: nat, env: RollbackEnv)
    requires FsInv(s) && Enabled(s, e) && e.Unlink? && e.err == 0 && CaptureSucceeds(s, Recorded(s, e))
    requires ValidRun(Step(s, e), es) && Retains(s, e, es)
    requires ts == e.cap.ts || (ts == 0 && forall i :: 0 <= i < |es| ==> !ListedUnlink(Step(s, e), es, i, e.name))
    requires var n := Run(Step(s, e), es);
      && Join(dir, e.name) !in n.lower.foreign && dir !in n.lower.foreign && dir in n.lower.dirs
      && !HasEntry(n.lower, dir, e.name)
      && RollbackLegal(n, Join(dir, e.name), ts, env)
      && Smooth(n.vault, NewVersion(s.vault, Recorded(s, e)), env)
    ensures var n := Run(Step(s, e), es);
      var was := s.lower.nodes[Target(s, e)];
      Rollback(n, Join(dir, e.name), ts, env)
      == (0, SetNode(AddEntry(n.lower, dir, e.name, env.newIno), env.newIno,
                     Inode(was.content, env.uid, env.gid, was.mode & env.keep)))
  {
    var t, n, ino := Step(s, e), Run(Step(s, e), es), Target(s, e);
    var v := NewVersion(s.vault, Recorded(s, e));
    CaptureSaves(s, e);
    StepInv(s, e);
    assert t.vault.store[ino][0] == v;
    var k := Retention(t, es, ino, 0);
    RunInv(t, es);
    FindsTheDeletedIff(t, es, ino, v);
    KeepsSavedData(t, es, ino, v);
    assert "" !in n.lower.dirs;
    JoinSplits(dir, e.name);
    RestoreSucceeds(Saved(n.vault, v), [], env.restore);
  }

  /**
   * Unlink round trip: after a captured unlink and any run that keeps its version and at the end lists no later one of
   * the same base name, rolling back the missing path with timestamp 0 makes a file of that name in the same directory,
   * with the same content, and the mode that the lower file system's creation filter lets through.
   */
  lemma UnlinkRoundTrip(s: Fs, e: Event, es: seq<Event>, env: RollbackEnv)
    requires FsInv(s) && Enabled(s, e) && e.Unlink? && e.err == 0 && CaptureSucceeds(s, Recorded(s, e))
    requires ValidRun(Step(s, e), es) && Retains(s, e, es)
    requires forall i :: 0 <= i < |es| ==> !ListedUnlink(Step(s, e), es, i, e.name)
    requires var n := Run(Step(s, e), es);
      && Join(e.dir, e.name) !in n.lower.foreign && e.dir !in n.lower.foreign && e.dir in n.lower.dirs
      && !HasEntry(n.lower, e.dir, e.name)
      && RollbackLegal(n, Join(e.dir, e.name), 0, env)
      && Smooth(n.vault, NewVersion(s.vault, Recorded(s, e)), env)
    ensures var r := Rollback(Run(Step(s, e), es), Join(e.dir, e.name), 0, env);
      var was := s.lower.nodes[Target(s, e)];
      && r.0 == 0
      && HasEntry(r.1, e.dir, e.name) && r.1.dirs[e.dir][e.name] == env.newIno && env.newIno in r.1.nodes
      && r.1.nodes[env.newIno].content == was.content
      && r.1.nodes[env.newIno].mode == was.mode & env.keep
  {
    RollbackOfMissing(s, e, es, e.dir, 0, env);
  }

  /** What can be read under a name. */
  function Readable(lo: Lower, d: string, n: string): Option<Bytes> {
    if HasEntry(lo, d, n) && lo.dirs[d][n] in lo.nodes then Some(lo.nodes[lo.dirs[d][n]].content) else None
  }

  /** Rolled back at once, an unlink leaves every name of every directory reading as it did before. */
  lemma UnlinkUndoneAtOnce(s: Fs, e: Event, env: RollbackEnv)
    requires FsInv(s) && Enabled(s, e) && e.Unlink? && e.err == 0 && CaptureSucceeds(s, Recorded(s, e))
    requires Join(e.dir, e.name) !in s.lower.foreign && e.dir !in s.lower.foreign
    requires RollbackLegal(Step(s, e), Join(e.dir, e.name), 0, env) && env.newIno !in s.lower.nodes
    requires Smooth(Step(s, e).vault, NewVersion(s.vault, Recorded(s, e)), env)
    ensures !HasEntry(Step(s, e).lower, e.dir, e.name)
    ensures forall d, n ::
      Readable(Rollback(Step(s, e), Join(e.dir, e.name), 0, env).1, d, n) == Readable(s.lower, d, n)
  {
    RollbackOfMissing(s, e, [], e.dir, 0, env);
    var was := s.lower.nodes[Target(s, e)];
    ReplacedReads(s.lower, e.dir, e.name, env.newIno, Inode(was.content, env.uid, env.gid, was.mode & env.keep));
  }

  /** Replacing a file by a new one with the same content does not show in what can be read. */
  lemma ReplacedReads(lo: Lower, dir: string, name: string, newIno: nat, node: Inode)
    requires LowerInv(lo) && HasEntry(lo, dir, name) && newIno !in lo.nodes
    requires Some(node.content) == Readable(lo, dir, name)
    ensures forall d, n ::
      Readable(SetNode(AddEntry(DropEntry(lo, dir, name), dir, name, newIno), newIno, node), d, n) == Readable(lo, d, n)
  {
    var r := SetNode(AddEntry(DropEntry(lo, dir, name), dir, name, newIno), newIno, node);
    forall d, n ensures Readable(r, d, n) == Readable(lo, d, n) {
      if d != dir || n != name {
        assert HasEntry(r, d, n) <==> HasEntry(lo, d, n);
      }
    }
  }

  /** The saved data of a version is the same at both ends of any run that leaves it in the store. */
  lemma {:induction false} KeepsSavedData(s: Fs, es: seq<Event>, ino: nat, w: Version)
    requires FsInv(s) && ValidRun(s, es) && w.hasData
    requires w in ListOf(s.vault.store, ino) && w in ListOf(Run(s, es).vault.store, ino)
    ensures Saved(Run(s, es).vault, w) == Saved(s.vault, w)
    decreases |es|
  {
    if es != [] {
      var front, last := es[..|es| - 1], es[|es| - 1];
      var t := Run(s, front);
      RunInv(s, front);
      GoneForGood(s, es, ino, w);
      KeepsSavedData(s, front, ino, w);
      ShadowStays(t.vault, Recorded(t, last), ino, w);
    }
  }

  /** A version that left the store cannot come back: its timestamp is in the past. */
  lemma GoneForGood(s: Fs, es: seq<Event>, ino: nat, w: Version)
    requires FsInv(s) && ValidRun(s, es) && es != []
    requires w in ListOf(s.vault.store, ino) && w in ListOf(Run(s, es).vault.store, ino)
    ensures w in ListOf(Run(s, es[..|es| - 1]).vault.store, ino)
  {
    var front, last := es[..|es| - 1], es[|es| - 1];
    var t := Run(s, front);
    RunInv(s, front);
    assert VersionOk(s.vault, ino, w);
    if w !in ListOf(t.vault.store, ino) {
      AppearsByCapture(t.vault, Recorded(t, last), ino, w);
      assert false;
    }
  }
}
