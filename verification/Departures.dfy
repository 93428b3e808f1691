/**
 * Short runs, from any state with a file in it, at the end of which the code does not do what its documentation
 * promises. A first mount of a directory with a file is such a state.
 */
module Departures {
  import opened CowTypes
  import opened ShadowNames
  import opened ShadowCopy
  import opened VersionLists
  import opened Vaults
  import opened LowerFs
  import opened CowFsModel
  import opened Histories
  import opened Rollbacks
  import opened Leftovers

  // ---------------------------------------------------------------- where the runs start

  /** Two directories with a file of the same name in each, and a second name for the first file in the other one. */
  function Disk(dir: string, other: string, name: string, link: string, a: Inode, b: Inode): Lower {
    Lower(map[dir := map[name := 0], other := map[name := 1, link := 0]], map[0 := a, 1 := b], {})
  }

  /** A first mount of them is a state that every run below can start from, with 2 and 3 as free inode numbers. */
  lemma FirstMount(root: string, dir: string, other: string, name: string, link: string, a: Inode, b: Inode)
    requires ShortRoot(root) && LegalName(name) && LegalName(link) && name != link
    requires dir != "" && other != "" && dir != other
    ensures var s := Mounted(root, Disk(dir, other, name, link, a, b), 0);
      && FsInv(s) && s.vault.clock == 0 && s.handles == map[] && s.lower.foreign == {}
      && HasEntry(s.lower, dir, name) && s.lower.dirs[dir] == map[name := 0]
      && HasEntry(s.lower, other, name) && s.lower.dirs[other] == map[name := 1, link := 0]
      && s.lower.nodes == map[0 := a, 1 := b]
  {
    var lo := Disk(dir, other, name, link, a, b);
    forall d, n | HasEntry(lo, d, n) ensures LegalName(n) && lo.dirs[d][n] in lo.nodes {
      assert d == dir || d == other;
    }
    MountedInv(root, lo, 0);
  }

  // ---------------------------------------------------------------- surroundings in which nothing fails

  /** Reads as long as the buffer, and writes that store everything. */
  function WholeCopy(src: Bytes, pos: nat): seq<IoStep>
    requires pos <= |src|
    decreases |src| - pos
  {
    if pos == |src| then [IoStep(0, 0)]
    else
      var n := if |src| - pos < COPY_BUF_SIZE then |src| - pos else COPY_BUF_SIZE;
      [IoStep(n, n)] + WholeCopy(src, pos + n)
  }

  /** The copy of any content can succeed. */
  lemma {:induction false} WholeCopyWorks(src: Bytes, pos: nat, out: Bytes)
    requires pos <= |src|
    ensures var io := WholeCopy(src, pos);
      Plays(src, pos, io) && FullWrites(io) && Loop(src, pos, out, io).err == 0
    decreases |src| - pos
  {
    if pos < |src| {
      var n := if |src| - pos < COPY_BUF_SIZE then |src| - pos else COPY_BUF_SIZE;
      var io := WholeCopy(src, pos);
      WholeCopyWorks(src, pos + n, out + src[pos..pos + n]);
      assert io[1..] == WholeCopy(src, pos + n);
      forall k | 0 <= k < |io| && io[k].read > 0 && io[k].written >= 0 ensures io[k].written == io[k].read {
        assert k > 0 ==> io[k] == io[1..][k - 1];
      }
    }
  }

  function GoodCapture(s: Fs, ino: nat): CapEnv
    requires ino in s.lower.nodes
  {
    CapEnv(s.vault.clock + 1, true, CopyEnv(true, 0, 0, true, WholeCopy(s.lower.nodes[ino].content, 0)), true, {})
  }

  lemma GoodCaptureWorks(s: Fs, ino: nat, op: Op, name: string, withData: bool)
    requires FsInv(s) && ino in s.lower.nodes && s.vault.clock + 1 < U64_RANGE
    requires (op == OpWrite || op == OpUnlink ==> withData) && (op == OpRename ==> !withData)
    requires op == OpUnlink || op == OpRename ==> LegalName(name)
    ensures var r := CaptureOf(s, ino, op, name, withData, GoodCapture(s, ino));
      Legal(s.vault, r) && CaptureSucceeds(s, r)
  {
    WholeCopyWorks(s.lower.nodes[ino].content, 0, []);
  }

  function GoodRollback(va: Vault, v: Version, newIno: nat): RollbackEnv {
    var saved := match Saved(va, v) case None => [] case Some(b) => b;
    RollbackEnv(0, 0, 0, newIno, 0, 0, 0xFFFF, RestoreEnv(true, 0, 0, 0, true, WholeCopy(saved, 0)))
  }

  lemma GoodRollbackWorks(va: Vault, v: Version, newIno: nat)
    requires v.hasData ==> v.path in va.shadow
    ensures Smooth(va, v, GoodRollback(va, v, newIno))
  {
    var saved := match Saved(va, v) case None => [] case Some(b) => b;
    WholeCopyWorks(saved, 0, []);
  }

  /** The number is free for a new file. */
  predicate FreeNumber(s: Fs, newIno: nat) {
    newIno !in s.lower.nodes && newIno < U64_RANGE
  }

  lemma HeadsItsList(s: Fs, e: Event)
    requires FsInv(s) && Enabled(s, e) && CaptureSucceeds(s, Recorded(s, e))
    ensures FsInv(Step(s, e))
    ensures var l := ListOf(Step(s, e).vault.store, Recorded(s, e).ino);
      l != [] && l[0] == NewVersion(s.vault, Recorded(s, e))
  {
    CaptureSaves(s, e);
    StepInv(s, e);
  }

  // ---------------------------------------------------------------- short runs

  lemma TwoSteps(s: Fs, e: Event, f: Event)
    requires Enabled(s, e) && Enabled(Step(s, e), f)
    ensures ValidRun(s, [e, f]) && Run(s, [e, f]) == Step(Step(s, e), f)
  {
    OneStep(s, e);
    assert [e, f][..|[e, f]| - 1] == [e];
  }

  // ---------------------------------------------------------------- a rollback that replaces a file

  /** `mv name newName`, a new file `name`, the rollback of the first: it returns 0 and the new file is gone. */
  lemma RollbackReplacesFile(s: Fs, dir: string, name: string, newName: string, other: nat, node: Inode, newIno: nat)
    returns (es: seq<Event>, env: RollbackEnv)
    requires FsInv(s) && s.vault.clock + 1 < U64_RANGE && HasEntry(s.lower, dir, name)
    requires LegalName(newName) && newName !in s.lower.dirs[dir] && Join(dir, newName) !in s.lower.foreign
    requires FreeNumber(s, other) && FreeNumber(s, newIno) && newIno != other
    ensures ValidRun(s, es)
    ensures var (n, path, ino) := (Run(s, es), Join(dir, newName), s.lower.dirs[dir][name]);
      && HasEntry(n.lower, dir, name) && n.lower.dirs[dir][name] == other
      && Enabled(n, RollbackTo(path, 0, env)) && Rollback(n, path, 0, env).0 == 0
      && HasEntry(Rollback(n, path, 0, env).1, dir, name) && Rollback(n, path, 0, env).1.dirs[dir][name] == ino
      && !Spares(n.lower, Rollback(n, path, 0, env).1, dir, newName)
  {
    var ino := s.lower.dirs[dir][name];
    var e, f := Event.Rename(dir, name, dir, newName, GoodCapture(s, ino), 0), Create(dir, name, other, node);
    GoodCaptureWorks(s, ino, OpRename, name, false);
    var v := NewVersion(s.vault, Recorded(s, e));
    CaptureSaves(s, e);
    StepInv(s, e);
    StepInv(Step(s, e), f);
    TwoSteps(s, e, f);
    es, env := [e, f], GoodRollback(Step(s, e).vault, v, newIno);
    UndoesRename(Step(Step(s, e), f), dir, name, newName, ino, v, newIno);
  }

  lemma UndoesRename(s: Fs, dir: string, name: string, newName: string, ino: nat, v: Version, newIno: nat)
    requires FsInv(s) && HasEntry(s.lower, dir, name) && s.lower.dirs[dir][name] != ino && name != newName
    requires HasEntry(s.lower, dir, newName) && s.lower.dirs[dir][newName] == ino
    requires Join(dir, newName) !in s.lower.foreign
    requires ListOf(s.vault.store, ino) != [] && ListOf(s.vault.store, ino)[0] == v
    requires v.op == OpRename && v.name == name && !v.hasData && FreeNumber(s, newIno)
    ensures var (path, env) := (Join(dir, newName), GoodRollback(s.vault, v, newIno));
      && Enabled(s, RollbackTo(path, 0, env)) && Rollback(s, path, 0, env).0 == 0
      && HasEntry(Rollback(s, path, 0, env).1, dir, name) && Rollback(s, path, 0, env).1.dirs[dir][name] == ino
      && !Spares(s.lower, Rollback(s, path, 0, env).1, dir, newName)
  {
    var path, env := Join(dir, newName), GoodRollback(s.vault, v, newIno);
    JoinSplits(dir, newName);
    GoodRollbackWorks(s.vault, v, newIno);
    SelectsByTime(s, path, ino, v);
    Dispatch(s, path, 0, env);
    RenameRollbackSparesOthersIff(s, path, 0, env);
  }

  // ---------------------------------------------------------------- a rollback that ends in the wrong directory

  /** `mv dir/name newDir/newName` and its rollback: it returns 0, and the file is `newDir/name`. */
  lemma RollbackStaysInDirectory(s: Fs, dir: string, name: string, newDir: string, newName: string, newIno: nat)
    returns (e: Event, env: RollbackEnv)
    requires FsInv(s) && s.vault.clock + 1 < U64_RANGE && HasEntry(s.lower, dir, name)
    requires LegalName(newName) && newDir in s.lower.dirs && newDir != dir && FreeNumber(s, newIno)
    requires !HasEntry(s.lower, newDir, newName) && Join(newDir, newName) !in s.lower.foreign
    ensures Enabled(s, e) && ValidRun(s, [e])
    ensures var (n, path, ino) := (Run(s, [e]), Join(newDir, newName), s.lower.dirs[dir][name]);
      && Enabled(n, RollbackTo(path, 0, env)) && Rollback(n, path, 0, env).0 == 0
      && !HasEntry(Rollback(n, path, 0, env).1, dir, name)
      && HasEntry(Rollback(n, path, 0, env).1, newDir, name) && Rollback(n, path, 0, env).1.dirs[newDir][name] == ino
  {
    var ino := s.lower.dirs[dir][name];
    e := Event.Rename(dir, name, newDir, newName, GoodCapture(s, ino), 0);
    GoodCaptureWorks(s, ino, OpRename, name, false);
    var v := NewVersion(s.vault, Recorded(s, e));
    env := GoodRollback(Step(s, e).vault, v, newIno);
    GoodRollbackWorks(Step(s, e).vault, v, newIno);
    OneStep(s, e);
    RenameUndoneIff(s, e, env);
  }

  // ---------------------------------------------------------------- shadow files left behind

  /** A first write whose copy meets a read error goes on, and leaves a shadow file that no version leads to. */
  lemma FailedCopyStaysBehind(s: Fs, ino: nat, h: nat, after: Bytes) returns (es: seq<Event>)
    requires FsInv(s) && s.vault.clock + 1 < U64_RANGE && ino in s.lower.nodes && h !in s.handles
    ensures ValidRun(s, es) && Stray(Run(s, es).vault, ino, s.vault.clock + 1)
    ensures Run(s, es).vault.store == s.vault.store
    ensures ino in Run(s, es).lower.nodes && Run(s, es).lower.nodes[ino].content == after
  {
    var e := Event.Open(h, ino, true);
    var cap := CapEnv(s.vault.clock + 1, true, CopyEnv(true, 0, 0, true, [IoStep(-5, 0)]), true, {});
    var f := Event.Write(h, cap, after);
    StepInv(s, e);
    UnfilledStrands(s.vault, Recorded(Step(s, e), f));
    TwoSteps(s, e, f);
    es := [e, f];
  }

  /** A collection that cannot remove the file of an expired version frees the version all the same. */
  lemma FailedRemovalStaysBehind(s: Fs, ino: nat) returns (e: Event, f: Event, v: Version)
    requires FsInv(s) && s.vault.clock < U64_RANGE / 2 && ino in s.lower.nodes
    ensures Enabled(s, e) && v in ListOf(Step(s, e).vault.store, ino)
    ensures Enabled(Step(s, e), f) && v !in ListOf(Step(Step(s, e), f).vault.store, ino)
    ensures Stray(Step(Step(s, e), f).vault, ino, v.ts)
  {
    v, e := SavedByTruncate(s, ino);
    f := Collection(v.ts + 300 * NSEC_PER_SEC + 1, 300, {v.path});
    ExpiresUnremoved(Step(s, e).vault, Recorded(Step(s, e), f), ino, v);
  }

  lemma SavedByTruncate(s: Fs, ino: nat) returns (v: Version, e: Event)
    requires FsInv(s) && s.vault.clock + 1 < U64_RANGE && ino in s.lower.nodes
    ensures Enabled(s, e) && FsInv(Step(s, e)) && Step(s, e).vault.clock == v.ts == s.vault.clock + 1
    ensures ino in Step(s, e).vault.store && v in Step(s, e).vault.store[ino] && v.hasData
  {
    e := Setattr(ino, Attr(Some(0), None, None, None), None, GoodCapture(s, ino), 0);
    GoodCaptureWorks(s, ino, OpSetattr, "", true);
    v := NewVersion(s.vault, Recorded(s, e));
    CaptureSaves(s, e);
    StepInv(s, e);
    assert Step(s, e).vault.store[ino][0] == v;
  }

  lemma ExpiresUnremoved(va: Vault, e: VaultEvent, ino: nat, v: Version)
    requires VaultInv(va) && Legal(va, e) && ino in va.store && v in va.store[ino] && v.hasData
    requires e == Gc(v.ts + 300 * NSEC_PER_SEC + 1, 300, {v.path})
    ensures Stray(VaultStep(va, e), ino, v.ts) && v !in ListOf(VaultStep(va, e).store, ino)
  {
    CutoffValue(e.now, e.window);
    assert Drops(va, e, ino, v);
    UnremovedAfterCollection(va, e, ino, v);
  }

  // ---------------------------------------------------------------- rollbacks that return 0

  /** A deleted file is recreated empty although its saved content is there, and the rollback returns 0. */
  lemma RecreatedEmpty(s: Fs, dir: string, name: string, newIno: nat) returns (e: Event, env: RollbackEnv)
    requires FsInv(s) && s.vault.clock + 1 < U64_RANGE && HasEntry(s.lower, dir, name)
    requires dir !in s.lower.foreign && Join(dir, name) !in s.lower.foreign && FreeNumber(s, newIno)
    ensures Enabled(s, e) && ValidRun(s, [e])
    ensures var (n, path, was) := (Run(s, [e]), Join(dir, name), s.lower.nodes[s.lower.dirs[dir][name]].content);
      && Enabled(n, RollbackTo(path, 0, env)) && Rollback(n, path, 0, env).0 == 0
      && Selected(n, path, 0).Some? && Saved(n.vault, Selected(n, path, 0).value) == Some(was)
      && Readable(Rollback(n, path, 0, env).1, dir, name) == Some([])
  {
    var v;
    e, v := UnlinkedNow(s, dir, name);
    OneStep(s, e);
    env := NoCredentials(Step(s, e).vault, v, newIno);
    RecreatesNothing(Step(s, e), dir, name, v, newIno);
  }

  function NoCredentials(va: Vault, v: Version, newIno: nat): RollbackEnv {
    var good := GoodRollback(va, v, newIno);
    good.(restore := good.restore.(cred := false))
  }

  lemma RecreatesNothing(s: Fs, dir: string, name: string, v: Version, newIno: nat)
    requires var path := Join(dir, name);
      && LastSlash(path) >= 0 && DirOf(path) == dir && BaseName(path) == name && name != ""
      && Resolve(s.lower, path).None? && Selected(s, path, 0) == Some(v) && path !in s.lower.foreign
    requires dir in s.lower.dirs && dir !in s.lower.foreign && v.hasData && v.path in s.vault.shadow
    requires FreeNumber(s, newIno)
    ensures var (path, env) := (Join(dir, name), NoCredentials(s.vault, v, newIno));
      && Enabled(s, RollbackTo(path, 0, env)) && Rollback(s, path, 0, env).0 == 0
      && Readable(Rollback(s, path, 0, env).1, dir, name) == Some([])
  {
    GoodRollbackWorks(s.vault, v, newIno);
    MissingIsRecreated(s, dir, name, v, NoCredentials(s.vault, v, newIno));
  }

  /** The rollback of a missing path returns 0 whatever became of the content. */
  lemma MissingIsRecreated(s: Fs, dir: string, name: string, v: Version, env: RollbackEnv)
    requires var path := Join(dir, name);
      && LastSlash(path) >= 0 && DirOf(path) == dir && BaseName(path) == name && name != ""
      && Resolve(s.lower, path).None? && Selected(s, path, 0) == Some(v) && path !in s.lower.foreign
    requires dir in s.lower.dirs && dir !in s.lower.foreign && v.hasData
    requires env.lookupErr == 0 && env.lowerErr == 0 && env.attrErr <= 0 && RestorePlays(s.vault, v, env)
    ensures RollbackLegal(s, Join(dir, name), 0, env) && Rollback(s, Join(dir, name), 0, env).0 == 0
    ensures Readable(Rollback(s, Join(dir, name), 0, env).1, dir, name)
         == Some(Restore(Saved(s.vault, v), [], env.restore).1)
  {
    assert name !in s.lower.dirs[dir];
  }

  /** A captured unlink: the missing path selects the version that it recorded. */
  lemma UnlinkedNow(s: Fs, dir: string, name: string) returns (e: Event, v: Version)
    requires FsInv(s) && s.vault.clock + 1 < U64_RANGE && HasEntry(s.lower, dir, name)
    ensures e == Event.Unlink(dir, name, GoodCapture(s, s.lower.dirs[dir][name]), 0)
    ensures Enabled(s, e) && CaptureSucceeds(s, Recorded(s, e)) && FsInv(Step(s, e))
    ensures v == NewVersion(s.vault, Recorded(s, e)) && v.hasData && Step(s, e).lower == DropEntry(s.lower, dir, name)
    ensures var (n, path) := (Step(s, e), Join(dir, name));
      && LastSlash(path) >= 0 && DirOf(path) == dir && BaseName(path) == name
      && Resolve(n.lower, path).None? && Selected(n, path, 0) == Some(v)
      && Saved(n.vault, v) == Some(s.lower.nodes[s.lower.dirs[dir][name]].content)
  {
    var ino := s.lower.dirs[dir][name];
    e := Event.Unlink(dir, name, GoodCapture(s, ino), 0);
    GoodCaptureWorks(s, ino, OpUnlink, name, true);
    v := NewVersion(s.vault, Recorded(s, e));
    CaptureSaves(s, e);
    StepInv(s, e);
    JoinSplits(dir, name);
    var n := Step(s, e);
    assert n.vault.store[ino][0] == v;
    assert ValidRun(n, []) && Run(n, []) == n;
    FindsTheDeletedIff(n, [], ino, v);
  }

  /** A rollback of `chmod` whose last call fails returns 0 and leaves everything as it is. */
  lemma ModeNotRestored(s: Fs, dir: string, name: string, mode: bv16, newIno: nat)
    returns (e: Event, env: RollbackEnv)
    requires FsInv(s) && s.vault.clock + 1 < U64_RANGE && HasEntry(s.lower, dir, name)
    requires FreeNumber(s, newIno)
    requires Join(dir, name) !in s.lower.foreign && mode != s.lower.nodes[s.lower.dirs[dir][name]].mode
    ensures Enabled(s, e) && ValidRun(s, [e])
    ensures var (n, path, ino) := (Run(s, [e]), Join(dir, name), s.lower.dirs[dir][name]);
      && Enabled(n, RollbackTo(path, 0, env)) && Rollback(n, path, 0, env) == (0, n.lower)
      && Selected(n, path, 0).Some? && Selected(n, path, 0).value.stat.mode == s.lower.nodes[ino].mode
      && ino in n.lower.nodes && n.lower.nodes[ino].mode == mode
  {
    var ino := s.lower.dirs[dir][name];
    e := Setattr(ino, Attr(None, None, None, Some(mode)), None, GoodCapture(s, ino), 0);
    GoodCaptureWorks(s, ino, OpSetattr, "", false);
    var n, v := Step(s, e), NewVersion(s.vault, Recorded(s, e));
    HeadsItsList(s, e);
    OneStep(s, e);
    AttributesStay(n, dir, name, v, newIno);
    env := GoodRollback(n.vault, v, newIno).(attrErr := -1);
  }

  lemma AttributesStay(s: Fs, dir: string, name: string, v: Version, newIno: nat)
    requires FsInv(s) && HasEntry(s.lower, dir, name) && Join(dir, name) !in s.lower.foreign && FreeNumber(s, newIno)
    requires var l := ListOf(s.vault.store, s.lower.dirs[dir][name]); l != [] && l[0] == v
    requires v.op == OpSetattr && !v.hasData
    ensures var (path, env) := (Join(dir, name), GoodRollback(s.vault, v, newIno).(attrErr := -1));
      && Selected(s, path, 0) == Some(v)
      && Enabled(s, RollbackTo(path, 0, env)) && Rollback(s, path, 0, env) == (0, s.lower)
  {
    JoinSplits(dir, name);
    SelectsByTime(s, Join(dir, name), s.lower.dirs[dir][name], v);
    GoodRollbackWorks(s.vault, v, newIno);
  }

  /** One of two names of a file is unlinked; the rollback through the other one fails to look it up, and returns 0. */
  lemma LookupErrorDropped(s: Fs, dir: string, name: string, other: string, link: string, newIno: nat)
    returns (e: Event, env: RollbackEnv)
    requires FsInv(s) && s.vault.clock + 1 < U64_RANGE && HasEntry(s.lower, dir, name)
    requires HasEntry(s.lower, other, link) && s.lower.dirs[other][link] == s.lower.dirs[dir][name]
    requires dir != other || name != link
    requires Join(other, link) !in s.lower.foreign && FreeNumber(s, newIno)
    ensures Enabled(s, e) && ValidRun(s, [e])
    ensures var (n, path) := (Run(s, [e]), Join(other, link));
      && Enabled(n, RollbackTo(path, 0, env)) && Rollback(n, path, 0, env) == (0, n.lower)
      && Selected(n, path, 0).Some? && Selected(n, path, 0).value.op == OpUnlink
      && Selected(n, path, 0).value.name == name && !HasEntry(n.lower, dir, name)
  {
    var v;
    e, v := UnlinkedNow(s, dir, name);
    var n, ino := Step(s, e), s.lower.dirs[dir][name];
    OneStep(s, e);
    assert HasEntry(n.lower, other, link) && n.lower.dirs[other][link] == ino;
    HeadsItsList(s, e);
    LookupFails(n, other, link, v, newIno);
    env := GoodRollback(n.vault, v, newIno).(lookupErr := -5);
  }

  lemma LookupFails(s: Fs, dir: string, name: string, v: Version, newIno: nat)
    requires FsInv(s) && HasEntry(s.lower, dir, name) && Join(dir, name) !in s.lower.foreign && FreeNumber(s, newIno)
    requires var l := ListOf(s.vault.store, s.lower.dirs[dir][name]); l != [] && l[0] == v
    requires v.op == OpUnlink
    ensures var (path, env) := (Join(dir, name), GoodRollback(s.vault, v, newIno).(lookupErr := -5));
      && Selected(s, path, 0) == Some(v)
      && Enabled(s, RollbackTo(path, 0, env)) && Rollback(s, path, 0, env) == (0, s.lower)
  {
    var ino := s.lower.dirs[dir][name];
    JoinSplits(dir, name);
    SelectsByTime(s, Join(dir, name), ino, v);
    assert VersionOk(s.vault, ino, v);
    GoodRollbackWorks(s.vault, v, newIno);
  }

  /** For a missing path the directory does not matter. */
  lemma SelectsByBaseName(s: Fs, dir: string, other: string, name: string)
    requires LegalName(name) && dir != "" && other != ""
    requires !HasEntry(s.lower, dir, name) && !HasEntry(s.lower, other, name)
    ensures var path := Join(dir, name);
      && LastSlash(path) >= 0 && DirOf(path) == dir && BaseName(path) == name && Resolve(s.lower, path).None?
      && Selected(s, path, 0) == Selected(s, Join(other, name), 0)
  {
    JoinSplits(dir, name);
    JoinSplits(other, name);
  }

  /** Two files of one base name are unlinked: asking for the first one back gives the content of the second. */
  lemma WrongFileRecreated(s: Fs, dir: string, other: string, name: string, newIno: nat)
    returns (es: seq<Event>, env: RollbackEnv)
    requires FsInv(s) && s.vault.clock + 2 < U64_RANGE && dir != other
    requires HasEntry(s.lower, dir, name) && HasEntry(s.lower, other, name)
    requires dir !in s.lower.foreign && Join(dir, name) !in s.lower.foreign && FreeNumber(s, newIno)
    ensures ValidRun(s, es)
    ensures var (n, path) := (Run(s, es), Join(dir, name));
      && Enabled(n, RollbackTo(path, 0, env)) && Rollback(n, path, 0, env).0 == 0
      && Readable(Rollback(n, path, 0, env).1, dir, name) == Readable(s.lower, other, name)
  {
    var e, f, w := UnlinkBoth(s, dir, other, name);
    TwoSteps(s, e, f);
    es := [e, f];
    var n := Step(Step(s, e), f);
    env := GoodRollback(n.vault, w, newIno);
    assert "" !in s.lower.dirs && LegalName(name);
    RecreatesTheOther(n, dir, other, name, w, newIno);
  }

  lemma UnlinkBoth(s: Fs, dir: string, other: string, name: string) returns (e: Event, f: Event, w: Version)
    requires FsInv(s) && s.vault.clock + 2 < U64_RANGE && dir != other
    requires HasEntry(s.lower, dir, name) && HasEntry(s.lower, other, name)
    ensures Enabled(s, e) && Enabled(Step(s, e), f)
    ensures var n := Step(Step(s, e), f);
      && Selected(n, Join(other, name), 0) == Some(w) && w.hasData
      && Saved(n.vault, w) == Readable(s.lower, other, name)
      && n.lower == DropEntry(DropEntry(s.lower, dir, name), other, name)
  {
    var v;
    e, v := UnlinkedNow(s, dir, name);
    f, w := UnlinkedNow(Step(s, e), other, name);
  }

  lemma RecreatesTheOther(n: Fs, dir: string, other: string, name: string, w: Version, newIno: nat)
    requires LegalName(name) && dir != "" && other != "" && dir in n.lower.dirs
    requires !HasEntry(n.lower, dir, name) && !HasEntry(n.lower, other, name)
    requires dir !in n.lower.foreign && Join(dir, name) !in n.lower.foreign
    requires Selected(n, Join(other, name), 0) == Some(w) && w.hasData && w.path in n.vault.shadow
    ensures var (env, path) := (GoodRollback(n.vault, w, newIno), Join(dir, name));
      && RollbackLegal(n, path, 0, env) && Rollback(n, path, 0, env).0 == 0
      && Readable(Rollback(n, path, 0, env).1, dir, name) == Saved(n.vault, w)
  {
    var env := GoodRollback(n.vault, w, newIno);
    GoodRollbackWorks(n.vault, w, newIno);
    SelectsByBaseName(n, dir, other, name);
    MissingIsRecreated(n, dir, name, w, env);
    RestoreSucceeds(Saved(n.vault, w), [], env.restore);
  }
}
