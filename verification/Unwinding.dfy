/** Rolling back the versions of a file, newest first, brings the file back as it was before the first of them. */
module Unwinding {
  import opened CowTypes
  import opened ShadowNames
  import opened ShadowCopy
  import opened VersionLists
  import opened Vaults
  import opened LowerFs
  import opened CowFsModel
  import opened Histories
  import opened Rollbacks

  // ---------------------------------------------------------------- what undoing a list means

  function UnwindNode(va: Vault, l: seq<Version>, n: Inode): Inode {
    if l == [] then n else UnwindNode(va, l[1..], Undone(va, l[0], n))
  }

  function UnwindName(l: seq<Version>, name: string): string {
    if l == [] then name else UnwindName(l[1..], NameBefore(l[0], name))
  }

  /** The last version with data in the list, which is the oldest. */
  function OldestData(l: seq<Version>): Option<Version> {
    if l == [] then None
    else if OldestData(l[1..]).Some? then OldestData(l[1..])
    else if l[0].hasData then Some(l[0]) else None
  }

  /** The content that unwinding ends with: what the oldest version with data saved, or what is there now. */
  function Reached(va: Vault, l: seq<Version>, now: Bytes): Bytes {
    match OldestData(l)
    case Some(v) => if v.path in va.shadow then va.shadow[v.path] else now
    case None => now
  }

  /** The same saved bytes in both vaults for every version of the list. */
  ghost predicate SameData(a: Vault, b: Vault, l: seq<Version>) {
    forall v :: v in l && v.hasData ==> v.path in a.shadow && v.path in b.shadow && a.shadow[v.path] == b.shadow[v.path]
  }

  lemma {:induction false} UnwindFrame(a: Vault, b: Vault, l: seq<Version>, n: Inode)
    requires SameData(a, b, l)
    ensures UnwindNode(a, l, n) == UnwindNode(b, l, n)
  {
    if l != [] {
      assert l[0] in l && forall v :: v in l[1..] ==> v in l;
      UnwindFrame(a, b, l[1..], Undone(a, l[0], n));
    }
  }

  /** Owner and mode after unwinding do not depend on the content one starts from. */
  lemma {:induction false} UnwindStat(va: Vault, l: seq<Version>, n: Inode, m: Inode)
    requires StatOf(n) == StatOf(m)
    ensures StatOf(UnwindNode(va, l, n)) == StatOf(UnwindNode(va, l, m))
  {
    if l != [] {
      UnwindStat(va, l[1..], Undone(va, l[0], n), Undone(va, l[0], m));
    }
  }

  lemma {:induction false} OldestIsListed(l: seq<Version>)
    ensures OldestData(l).Some? ==> OldestData(l).value in l && OldestData(l).value.hasData
  {
    if l != [] {
      OldestIsListed(l[1..]);
    }
  }

  lemma {:induction false} UnwindContent(va: Vault, l: seq<Version>, n: Inode)
    requires SameData(va, va, l)
    ensures UnwindNode(va, l, n).content == Reached(va, l, n.content)
  {
    if l != [] {
      assert l[0] in l && forall v :: v in l[1..] ==> v in l;
      UnwindContent(va, l[1..], Undone(va, l[0], n));
      OldestIsListed(l[1..]);
    }
  }

  // ---------------------------------------------------------------- the runs that can be unwound

  /** `name` is the one entry of `dir` that leads to `ino`. */
  ghost predicate OneName(lo: Lower, dir: string, ino: nat, name: string) {
    forall nm :: HasEntry(lo, dir, nm) && lo.dirs[dir][nm] == ino <==> nm == name
  }

  /** Some handle can write to the file without a snapshot. */
  ghost predicate Marked(s: Fs, ino: nat) {
    exists h :: h in s.handles && s.handles[h].ino == ino && s.handles[h].snapshotTaken && s.handles[h].writable
  }

  /**
   * An operation on the file: opening and closing, a write, a truncate or change of attributes, or a rename to a free
   * name in the same directory. Its capture, if it makes one, and its lower call succeed.
   */
  ghost predicate OnFile(s: Fs, e: Event, ino: nat, dir: string)
    requires Enabled(s, e)
  {
    match e
    case Open(_, _, _) => true
    case Close(_) => true
    case Write(h, _, _) => s.handles[h].ino == ino && (Snapshots(s.handles[h]) ==> CaptureSucceeds(s, Recorded(s, e)))
    case Setattr(i, _, _, _, err) => i == ino && err == 0 && CaptureSucceeds(s, Recorded(s, e))
    case Rename(d, name, newDir, newName, _, err) =>
      && d == dir && newDir == dir && s.lower.dirs[d][name] == ino && newName !in s.lower.dirs[dir]
      && err == 0 && CaptureSucceeds(s, Recorded(s, e))
    case _ => false
  }

  /**
   * Anything else that leaves the file, its name and its versions alone and opens no way to write to it without a
   * snapshot: operations and rollbacks on other files, operations on it that fail from the start, collections that
   * expire none of its versions, mounts and unmounts.
   */
  ghost predicate Elsewhere(s: Fs, e: Event, ino: nat, dir: string)
    requires Enabled(s, e)
  {
    var lo := LowerStep(s, e);
    && !AddsTo(s, e, ino)
    && (Marked(Step(s, e), ino) ==> Marked(s, ino))
    && ino in s.lower.nodes && ino in lo.nodes && lo.nodes[ino] == s.lower.nodes[ino]
    && (forall nm :: HasEntry(lo, dir, nm) && lo.dirs[dir][nm] == ino
                <==> HasEntry(s.lower, dir, nm) && s.lower.dirs[dir][nm] == ino)
    && NoneExpires(s, e, ino)
  }

  ghost predicate NoneExpires(s: Fs, e: Event, ino: nat) {
    e.Collection? ==> forall v :: v in ListOf(s.vault.store, ino) ==> v.ts >= Cutoff(e.now, e.window)
  }

  ghost predicate Follows(s: Fs, es: seq<Event>, ino: nat, dir: string)
    requires ValidRun(s, es)
    decreases |es|
  {
    es == [] ||
    (var front, last := es[..|es| - 1], es[|es| - 1];
     && Follows(s, front, ino, dir)
     && (OnFile(Run(s, front), last, ino, dir) || Elsewhere(Run(s, front), last, ino, dir)))
  }

  // ---------------------------------------------------------------- going forward

  /** The newest `k` versions of the file. */
  function Newest(s: Fs, ino: nat, k: nat): seq<Version>
    requires k <= |ListOf(s.vault.store, ino)|
  {
    ListOf(s.vault.store, ino)[..k]
  }

  /**
   * Undoing the newest `k` versions gives the name `name0` and the owner and mode of `node0`, and, if `exact`, its
   * content. `exact` says that no handle could write without a snapshot in the beginning.
   */
  ghost predicate Tracks(s: Fs, k: nat, ino: nat, dir: string, name: string, node0: Inode, name0: string, exact: bool) {
    && k <= |ListOf(s.vault.store, ino)|
    && FsInv(s) && ino in s.lower.nodes && OneName(s.lower, dir, ino, name)
    && UndoesTo(s.vault, Newest(s, ino, k), s.lower.nodes[ino], node0, exact)
    && UnwindName(Newest(s, ino, k), name) == name0
    && (exact && Marked(s, ino) ==> OldestData(Newest(s, ino, k)).Some?)
    && NoUnlinks(Newest(s, ino, k))
  }

  predicate UndoesTo(va: Vault, l: seq<Version>, n: Inode, node0: Inode, exact: bool) {
    && StatOf(UnwindNode(va, l, n)) == StatOf(node0)
    && (exact ==> UnwindNode(va, l, n).content == node0.content)
  }

  ghost predicate NoUnlinks(l: seq<Version>) {
    forall v :: v in l ==> v.op != OpUnlink
  }

  lemma StoredDataStays(s: Fs, e: Event, ino: nat, l: seq<Version>)
    requires FsInv(s) && Enabled(s, e)
    requires forall v :: v in l ==> v in ListOf(s.vault.store, ino) && v in ListOf(Step(s, e).vault.store, ino)
    ensures SameData(s.vault, Step(s, e).vault, l) && SameData(s.vault, s.vault, l)
    ensures SameData(Step(s, e).vault, Step(s, e).vault, l)
  {
    forall v | v in l && v.hasData
      ensures v.path in s.vault.shadow && v.path in Step(s, e).vault.shadow
      ensures s.vault.shadow[v.path] == Step(s, e).vault.shadow[v.path]
    {
      ShadowStays(s.vault, Recorded(s, e), ino, v);
    }
  }

  /** A step that adds nothing to the list and expires nothing keeps it. */
  lemma ListKept(s: Fs, e: Event, ino: nat)
    requires FsInv(s) && Enabled(s, e) && !AddsTo(s, e, ino) && NoneExpires(s, e, ino)
    ensures ListOf(Step(s, e).vault.store, ino) == ListOf(s.vault.store, ino)
  {
    assert Recorded(s, e).Gc? ==> Recorded(s, e) == Gc(e.now, e.window, e.stuck);
    ListStays(s.vault, Recorded(s, e), ino);
  }

  /** Unless the content matters and is not saved, a new content changes nothing in what undoing gives. */
  lemma UndoesFromContent(va: Vault, l: seq<Version>, n: Inode, c: Bytes, node0: Inode, exact: bool)
    requires SameData(va, va, l) && UndoesTo(va, l, n, node0, exact)
    requires c == n.content || !exact || OldestData(l).Some?
    ensures UndoesTo(va, l, n.(content := c), node0, exact)
  {
    UnwindStat(va, l, n, n.(content := c));
    UnwindContent(va, l, n);
    UnwindContent(va, l, n.(content := c));
    OldestIsListed(l);
  }

  /** A step that adds nothing to the list and leaves the file's node alone, or changes content that is saved. */
  lemma TracksUncaptured(s: Fs, e: Event, k: nat, ino: nat, dir: string, name: string,
                         node0: Inode, name0: string, exact: bool, c: Bytes)
    requires Tracks(s, k, ino, dir, name, node0, name0, exact) && Enabled(s, e)
    requires !AddsTo(s, e, ino) && NoneExpires(s, e, ino)
    requires ino in LowerStep(s, e).nodes && OneName(LowerStep(s, e), dir, ino, name)
    requires LowerStep(s, e).nodes[ino] == s.lower.nodes[ino].(content := c)
    requires c == s.lower.nodes[ino].content || !exact || OldestData(Newest(s, ino, k)).Some?
    requires Marked(Step(s, e), ino) ==> Marked(s, ino)
    ensures Tracks(Step(s, e), k, ino, dir, name, node0, name0, exact)
  {
    var l, n := Newest(s, ino, k), s.lower.nodes[ino];
    StepInv(s, e);
    ListKept(s, e, ino);
    StoredDataStays(s, e, ino, l);
    UnwindFrame(s.vault, Step(s, e).vault, l, n);
    UndoesFromContent(Step(s, e).vault, l, n, c, node0, exact);
  }

  lemma NewestAfter(s: Fs, e: Event, k: nat, ino: nat)
    requires FsInv(s) && Enabled(s, e) && CaptureSucceeds(s, Recorded(s, e)) && Recorded(s, e).ino == ino
    requires k <= |ListOf(s.vault.store, ino)| && k < MAX_VERSIONS
    ensures k + 1 <= |ListOf(Step(s, e).vault.store, ino)|
    ensures Newest(Step(s, e), ino, k + 1) == [NewVersion(s.vault, Recorded(s, e))] + Newest(s, ino, k)
  {
    CaptureSaves(s, e);
    var l, v := ListOf(s.vault.store, ino), NewVersion(s.vault, Recorded(s, e));
    assert Insert(l, v)[..k + 1] == [v] + l[..k];
  }

  /** A captured step on the file, whose change the new version undoes. */
  lemma TracksCaptured(s: Fs, e: Event, k: nat, ino: nat, dir: string, name: string, name': string,
                       node0: Inode, name0: string, exact: bool)
    requires Tracks(s, k, ino, dir, name, node0, name0, exact) && Enabled(s, e)
    requires CaptureSucceeds(s, Recorded(s, e)) && Recorded(s, e).ino == ino
    requires k < MAX_VERSIONS && Recorded(s, e).op != OpUnlink
    requires ino in LowerStep(s, e).nodes && OneName(LowerStep(s, e), dir, ino, name')
    requires var v := NewVersion(s.vault, Recorded(s, e));
      && Undone(Step(s, e).vault, v, LowerStep(s, e).nodes[ino]) == s.lower.nodes[ino]
      && NameBefore(v, name') == name
      && (Marked(Step(s, e), ino) ==> v.hasData || Marked(s, ino))
    ensures Tracks(Step(s, e), k + 1, ino, dir, name', node0, name0, exact)
  {
    var l := Newest(s, ino, k);
    var v := NewVersion(s.vault, Recorded(s, e));
    var t := Step(s, e);
    var l' := [v] + l;
    StepInv(s, e);
    NewestAfter(s, e, k, ino);
    NewestStay(s, t, k, ino, v);
    StoredDataStays(s, e, ino, l);
    UnwindFrame(s.vault, t.vault, l, s.lower.nodes[ino]);
    assert l'[0] == v && l'[1..] == l;
  }

  lemma NewestStay(s: Fs, t: Fs, k: nat, ino: nat, v: Version)
    requires k <= |ListOf(s.vault.store, ino)| && k + 1 <= |ListOf(t.vault.store, ino)|
    requires Newest(t, ino, k + 1) == [v] + Newest(s, ino, k)
    ensures forall w :: w in Newest(s, ino, k) ==> w in ListOf(s.vault.store, ino) && w in ListOf(t.vault.store, ino)
  {
    forall w | w in Newest(s, ino, k) ensures w in ListOf(t.vault.store, ino) {
      assert w in Newest(t, ino, k + 1);
    }
  }

  /** What an operation on the file leaves to be undone. */
  lemma UndoneByVersion(s: Fs, e: Event, ino: nat, dir: string)
    requires FsInv(s) && Enabled(s, e) && OnFile(s, e, ino, dir) && CapturesInode(Recorded(s, e), ino)
    requires ino in s.lower.nodes
    ensures ino in LowerStep(s, e).nodes
    ensures Undone(Step(s, e).vault, NewVersion(s.vault, Recorded(s, e)), LowerStep(s, e).nodes[ino])
         == s.lower.nodes[ino]
  {
    CaptureSaves(s, e);
  }

  lemma OneNameSameDirs(a: Lower, b: Lower, dir: string, ino: nat, name: string)
    requires OneName(a, dir, ino, name) && a.dirs == b.dirs
    ensures OneName(b, dir, ino, name)
  {
    forall nm ensures HasEntry(b, dir, nm) && b.dirs[dir][nm] == ino <==> nm == name {
      assert HasEntry(a, dir, nm) <==> HasEntry(b, dir, nm);
    }
  }

  lemma RenamedOnce(lo: Lower, dir: string, ino: nat, name: string, newName: string)
    requires HasEntry(lo, dir, name) && lo.dirs[dir][name] == ino && newName !in lo.dirs[dir]
    requires OneName(lo, dir, ino, name)
    ensures OneName(RenameEntry(lo, dir, name, dir, newName), dir, ino, newName)
  {
    var r := RenameEntry(lo, dir, name, dir, newName);
    forall nm ensures HasEntry(r, dir, nm) && r.dirs[dir][nm] == ino <==> nm == newName {
      if nm != newName && HasEntry(r, dir, nm) {
        assert HasEntry(lo, dir, nm) && r.dirs[dir][nm] == lo.dirs[dir][nm];
      }
    }
  }

  /** An operation on the file adds a version exactly when it captures. */
  lemma AddsIffCaptures(s: Fs, e: Event, ino: nat, dir: string)
    requires Enabled(s, e) && OnFile(s, e, ino, dir)
    ensures AddsTo(s, e, ino) <==> CapturesInode(Recorded(s, e), ino)
    ensures AddsTo(s, e, ino) ==> CaptureSucceeds(s, Recorded(s, e)) && Recorded(s, e).op != OpUnlink
  {
  }

  lemma OnFileCaptured(s: Fs, e: Event, k: nat, ino: nat, dir: string, name: string,
                       node0: Inode, name0: string, exact: bool)
    returns (name': string)
    requires Tracks(s, k, ino, dir, name, node0, name0, exact) && Enabled(s, e) && OnFile(s, e, ino, dir)
    requires AddsTo(s, e, ino) && k < MAX_VERSIONS
    ensures Tracks(Step(s, e), k + 1, ino, dir, name', node0, name0, exact)
  {
    AddsIffCaptures(s, e, ino, dir);
    UndoneByVersion(s, e, ino, dir);
    name' := NameAfter(s, e, ino, dir, name);
    NewMark(s, e, ino, dir);
    TracksCaptured(s, e, k, ino, dir, name, name', node0, name0, exact);
  }

  /** A handle gets its mark with a version that has data. */
  lemma NewMark(s: Fs, e: Event, ino: nat, dir: string)
    requires Enabled(s, e) && OnFile(s, e, ino, dir) && CapturesInode(Recorded(s, e), ino)
    ensures Marked(Step(s, e), ino) ==> NewVersion(s.vault, Recorded(s, e)).hasData || Marked(s, ino)
  {
  }

  lemma OnFileTracks(s: Fs, e: Event, k: nat, ino: nat, dir: string, name: string,
                     node0: Inode, name0: string, exact: bool)
    returns (name': string)
    requires Tracks(s, k, ino, dir, name, node0, name0, exact) && Enabled(s, e) && OnFile(s, e, ino, dir)
    requires AddsTo(s, e, ino) ==> k < MAX_VERSIONS
    ensures Tracks(Step(s, e), k + if AddsTo(s, e, ino) then 1 else 0, ino, dir, name', node0, name0, exact)
  {
    AddsIffCaptures(s, e, ino, dir);
    if AddsTo(s, e, ino) {
      name' := OnFileCaptured(s, e, k, ino, dir, name, node0, name0, exact);
    } else {
      OnFileUncaptured(s, e, k, ino, dir, name, node0, name0, exact);
      name' := name;
    }
  }

  /** The name after a captured step, which the version that it records leads back from. */
  lemma NameAfter(s: Fs, e: Event, ino: nat, dir: string, name: string) returns (name': string)
    requires Enabled(s, e) && OnFile(s, e, ino, dir) && CapturesInode(Recorded(s, e), ino)
    requires OneName(s.lower, dir, ino, name)
    ensures OneName(LowerStep(s, e), dir, ino, name') && NameBefore(NewVersion(s.vault, Recorded(s, e)), name') == name
  {
    name' := name;
    if e.Rename? {
      assert e.name == name by { assert HasEntry(s.lower, dir, e.name); }
      name' := e.newName;
      RenamedOnce(s.lower, dir, ino, name, name');
    } else {
      OneNameSameDirs(s.lower, LowerStep(s, e), dir, ino, name);
    }
  }

  /** An opening or closing, or a write through a handle that is marked already or cannot write. */
  lemma OnFileUncaptured(s: Fs, e: Event, k: nat, ino: nat, dir: string, name: string,
                         node0: Inode, name0: string, exact: bool)
    requires Tracks(s, k, ino, dir, name, node0, name0, exact) && Enabled(s, e) && OnFile(s, e, ino, dir)
    requires !CapturesInode(Recorded(s, e), ino)
    ensures Tracks(Step(s, e), k, ino, dir, name, node0, name0, exact)
  {
    assert e.Open? || e.Close? || e.Write?;
    var n := s.lower.nodes[ino];
    var c := if e.Write? && s.handles[e.h].writable then e.after else n.content;
    assert e.Write? && s.handles[e.h].writable ==> Marked(s, ino);
    assert LowerStep(s, e).nodes[ino] == n.(content := c);
    OneNameSameDirs(s.lower, LowerStep(s, e), dir, ino, name);
    TracksUncaptured(s, e, k, ino, dir, name, node0, name0, exact, c);
  }

  lemma ElsewhereTracks(s: Fs, e: Event, k: nat, ino: nat, dir: string, name: string,
                        node0: Inode, name0: string, exact: bool)
    requires Tracks(s, k, ino, dir, name, node0, name0, exact) && Enabled(s, e) && Elsewhere(s, e, ino, dir)
    ensures Tracks(Step(s, e), k, ino, dir, name, node0, name0, exact)
  {
    TracksUncaptured(s, e, k, ino, dir, name, node0, name0, exact, s.lower.nodes[ino].content);
  }

  lemma TracksStart(s: Fs, ino: nat, dir: string, name0: string)
    requires FsInv(s) && ino in s.lower.nodes && OneName(s.lower, dir, ino, name0)
    ensures Tracks(s, 0, ino, dir, name0, s.lower.nodes[ino], name0, !Marked(s, ino))
  {
    assert Newest(s, ino, 0) == [];
  }

  lemma TracksNext(s: Fs, e: Event, k: nat, t: Fs, k': nat, ino: nat, dir: string, name: string,
                   node0: Inode, name0: string, exact: bool)
    returns (name': string)
    requires Tracks(s, k, ino, dir, name, node0, name0, exact) && Enabled(s, e)
    requires OnFile(s, e, ino, dir) || Elsewhere(s, e, ino, dir)
    requires AddsTo(s, e, ino) ==> k < MAX_VERSIONS
    requires t == Step(s, e) && k' == k + if AddsTo(s, e, ino) then 1 else 0
    ensures Tracks(t, k', ino, dir, name', node0, name0, exact)
  {
    if OnFile(s, e, ino, dir) {
      name' := OnFileTracks(s, e, k, ino, dir, name, node0, name0, exact);
    } else {
      ElsewhereTracks(s, e, k, ino, dir, name, node0, name0, exact);
      name' := name;
    }
  }

  /**
   * Whatever the run did, undoing the versions that it recorded gives the file's name, owner and mode as they were at
   * the start, and its content too if no handle could write without a snapshot then.
   */
  lemma {:induction false} Forward(s: Fs, es: seq<Event>, ino: nat, dir: string, name0: string) returns (name: string)
    requires FsInv(s) && ValidRun(s, es) && Follows(s, es, ino, dir)
    requires ino in s.lower.nodes && OneName(s.lower, dir, ino, name0)
    requires AddCount(s, es, ino) <= MAX_VERSIONS
    ensures Tracks(Run(s, es), AddCount(s, es, ino), ino, dir, name, s.lower.nodes[ino], name0, !Marked(s, ino))
    decreases |es|
  {
    if es == [] {
      name := name0;
      TracksStart(s, ino, dir, name0);
    } else {
      var front, last := es[..|es| - 1], es[|es| - 1];
      name := Forward(s, front, ino, dir, name0);
      name := TracksNext(Run(s, front), last, AddCount(s, front, ino), Run(s, es), AddCount(s, es, ino),
                         ino, dir, name, s.lower.nodes[ino], name0, !Marked(s, ino));
    }
  }

  // ---------------------------------------------------------------- and back

  /** No other file has taken a name that the list would rename the file back to. */
  ghost predicate NamesFree(lo: Lower, dir: string, name: string, l: seq<Version>)
    requires dir in lo.dirs
  {
    forall v :: v in l && v.op == OpRename ==> v.name !in Besides(lo, dir, name)
  }

  /** The lower file system with the file at `name0` in state `node0`, all else as in `lo`. */
  function Restored(lo: Lower, dir: string, name: string, ino: nat, name0: string, node0: Inode): Lower
    requires dir in lo.dirs
  {
    var d: map<string, nat> := Besides(lo, dir, name)[name0 := ino];
    lo.(dirs := lo.dirs[dir := d], nodes := lo.nodes[ino := node0])
  }

  /** The directory lies inside the mount. */
  ghost predicate InsideMount(lo: Lower, dir: string) {
    dir != "" && forall nm :: Join(dir, nm) !in lo.foreign
  }

  /** Rolling back the versions of `l` one after the other, each through the file's name of the moment, leads to `t`. */
  ghost predicate Unwinds(s: Fs, dir: string, name: string, l: seq<Version>, envs: seq<RollbackEnv>, t: Fs)
    requires |envs| == |l|
    decreases |l|
  {
    if l == [] then t == s
    else
      var path := Join(dir, name);
      var e := RollbackTo(path, l[0].ts, envs[0]);
      && Enabled(s, e) && Rollback(s, path, l[0].ts, envs[0]).0 == 0
      && Unwinds(Step(s, e), dir, NameBefore(l[0], name), l[1..], envs[1..], t)
  }

  /** Nothing goes wrong in the rollbacks of the list. */
  ghost predicate AllSmooth(s: Fs, l: seq<Version>, envs: seq<RollbackEnv>) {
    && |envs| == |l|
    && forall k :: 0 <= k < |l| ==>
         Smooth(s.vault, l[k], envs[k]) && envs[k].newIno !in s.lower.nodes && envs[k].newIno < U64_RANGE
  }

  /** What every rollback of an unwinding starts from: the file at `name`, with history enough to look `l` up. */
  ghost predicate Ready(s: Fs, dir: string, name: string, ino: nat, l: seq<Version>) {
    && FsInv(s) && HasEntry(s.lower, dir, name) && s.lower.dirs[dir][name] == ino && ino in s.lower.nodes
    && InsideMount(s.lower, dir) && NamesFree(s.lower, dir, name, l)
    && forall v :: v in l ==> v in ListOf(s.vault.store, ino) && v.op != OpUnlink
  }

  /** One rollback of the unwinding. */
  lemma UnwindOne(s: Fs, dir: string, name: string, ino: nat, l: seq<Version>, envs: seq<RollbackEnv>)
    requires Ready(s, dir, name, ino, l) && l != [] && AllSmooth(s, l, envs)
    ensures var e := RollbackTo(Join(dir, name), l[0].ts, envs[0]);
      && Enabled(s, e) && Rollback(s, e.path, e.ts, e.env).0 == 0
      && Step(s, e) == s.(lower := Restored(s.lower, dir, name, ino, NameBefore(l[0], name),
                                            Undone(s.vault, l[0], s.lower.nodes[ino])))
  {
    assert l[0] in l;
    assert Smooth(s.vault, l[0], envs[0]);
    JoinSplits(dir, name);
    OneRollback(s, Join(dir, name), ino, l[0], envs[0]);
  }

  lemma OneRollback(s: Fs, path: string, ino: nat, v: Version, env: RollbackEnv)
    requires FsInv(s) && Resolve(s.lower, path) == Some(ino) && path !in s.lower.foreign
    requires v in ListOf(s.vault.store, ino) && v.op != OpUnlink
    requires v.op == OpRename ==> v.name !in Besides(s.lower, DirOf(path), BaseName(path))
    requires Smooth(s.vault, v, env) && env.newIno !in s.lower.nodes && env.newIno < U64_RANGE
    ensures ino in s.lower.nodes
    ensures var (e, d, name) := (RollbackTo(path, v.ts, env), DirOf(path), BaseName(path));
      && Enabled(s, e) && Rollback(s, path, v.ts, env).0 == 0
      && Step(s, e) == s.(lower := Restored(s.lower, d, name, ino, NameBefore(v, name),
                                            Undone(s.vault, v, s.lower.nodes[ino])))
  {
    RolledBack(s, path, ino, v, env);
    AfterRollback(s, path, v.ts, env);
  }

  lemma RolledBack(s: Fs, path: string, ino: nat, v: Version, env: RollbackEnv)
    requires FsInv(s) && Resolve(s.lower, path) == Some(ino) && path !in s.lower.foreign
    requires v in ListOf(s.vault.store, ino) && v.op != OpUnlink
    requires v.op == OpRename ==> v.name !in Besides(s.lower, DirOf(path), BaseName(path))
    requires Smooth(s.vault, v, env)
    ensures ino in s.lower.nodes && RollbackLegal(s, path, v.ts, env)
    ensures var (d, name) := (DirOf(path), BaseName(path));
      Rollback(s, path, v.ts, env)
      == (0, Restored(s.lower, d, name, ino, NameBefore(v, name), Undone(s.vault, v, s.lower.nodes[ino])))
  {
    var d, name := DirOf(path), BaseName(path);
    assert HasEntry(s.lower, d, name);
    SelectsByTime(s, path, ino, v);
    Dispatch(s, path, v.ts, env);
    OneRename(s.lower, d, name, ino, v);
  }

  lemma OneRename(lo: Lower, dir: string, name: string, ino: nat, v: Version)
    requires HasEntry(lo, dir, name) && lo.dirs[dir][name] == ino
    requires v.op == OpRename ==> v.name !in Besides(lo, dir, name)
    ensures (if v.op == OpRename then RenameEntry(lo, dir, name, dir, v.name) else lo).dirs
         == lo.dirs[dir := Besides(lo, dir, name)[NameBefore(v, name) := ino]]
  {
    var d: map<string, nat> := Besides(lo, dir, name)[name := ino];
    assert lo.dirs[dir] == d;
    assert lo.dirs == lo.dirs[dir := d];
  }

  /** After one rollback everything is ready for the next one. */
  lemma ReadyNext(s: Fs, dir: string, name: string, ino: nat, l: seq<Version>, envs: seq<RollbackEnv>, node: Inode)
    requires Ready(s, dir, name, ino, l) && l != [] && AllSmooth(s, l, envs)
    requires FsInv(s.(lower := Restored(s.lower, dir, name, ino, NameBefore(l[0], name), node)))
    ensures var t := s.(lower := Restored(s.lower, dir, name, ino, NameBefore(l[0], name), node));
      && Ready(t, dir, NameBefore(l[0], name), ino, l[1..]) && AllSmooth(t, l[1..], envs[1..])
      && Besides(t.lower, dir, NameBefore(l[0], name)) == Besides(s.lower, dir, name)
  {
    var name' := NameBefore(l[0], name);
    var t := s.(lower := Restored(s.lower, dir, name, ino, name', node));
    assert l[0] in l && forall v :: v in l[1..] ==> v in l;
    assert Besides(t.lower, dir, name') == Besides(s.lower, dir, name);
    assert t.lower.nodes.Keys == s.lower.nodes.Keys;
  }

  lemma RestoredTwice(lo: Lower, dir: string, name: string, ino: nat, n1: string, a: Inode, n2: string, b: Inode)
    requires dir in lo.dirs
    requires var mid := Restored(lo, dir, name, ino, n1, a); Besides(mid, dir, n1) == Besides(lo, dir, name)
    ensures var mid := Restored(lo, dir, name, ino, n1, a);
      Restored(mid, dir, n1, ino, n2, b) == Restored(lo, dir, name, ino, n2, b)
  {
  }

  /** The rollbacks of a list, one after the other, do to the file system what undoing the list means. */
  lemma {:induction false} Backward(s: Fs, dir: string, name: string, ino: nat, l: seq<Version>, envs: seq<RollbackEnv>)
    requires Ready(s, dir, name, ino, l) && AllSmooth(s, l, envs)
    ensures
      var lo := Restored(s.lower, dir, name, ino, UnwindName(l, name), UnwindNode(s.vault, l, s.lower.nodes[ino]));
      Unwinds(s, dir, name, l, envs, s.(lower := lo))
    decreases |l|
  {
    if l == [] {
      assert s.lower.dirs[dir] == Besides(s.lower, dir, name)[name := ino];
      assert s.lower == Restored(s.lower, dir, name, ino, name, s.lower.nodes[ino]);
    } else {
      UnwindOne(s, dir, name, ino, l, envs);
      var e := RollbackTo(Join(dir, name), l[0].ts, envs[0]);
      var name', node := NameBefore(l[0], name), Undone(s.vault, l[0], s.lower.nodes[ino]);
      StepInv(s, e);
      ReadyNext(s, dir, name, ino, l, envs, node);
      Backward(Step(s, e), dir, name', ino, l[1..], envs[1..]);
      RestoredTwice(s.lower, dir, name, ino, name', node,
                    UnwindName(l, name), UnwindNode(s.vault, l, s.lower.nodes[ino]));
    }
  }

  /** The file system after unwinding the versions that the run added. */
  function Unwound(n: Fs, dir: string, name: string, ino: nat, k: nat, name0: string, node0: Inode): Lower
    requires dir in n.lower.dirs && k <= |ListOf(n.vault.store, ino)| && ino in n.lower.nodes
  {
    var content := Reached(n.vault, Newest(n, ino, k), n.lower.nodes[ino].content);
    Restored(n.lower, dir, name, ino, name0, node0.(content := content))
  }

  /**
   * Unwinding back to any moment. From any state, with whatever versions and handles there are, come in any order and
   * through any handles writes, truncates, changes of owner or mode and renames to free names in its directory, with
   * anything at all happening to other files, at most 64 versions in all and none expired. If in the end no other file
   * has taken one of the names in between, rolling back the versions recorded since, newest first, always succeeds and
   * brings back the file's name, owner and mode and changes nothing else. The content is the one that the oldest of
   * these versions with data saved, or the present one if there is none.
   */
  lemma UnwindingReaches(s: Fs, es: seq<Event>, ino: nat, dir: string, name0: string, name: string,
                         envs: seq<RollbackEnv>)
    requires FsInv(s) && ValidRun(s, es) && Follows(s, es, ino, dir)
    requires ino in s.lower.nodes && OneName(s.lower, dir, ino, name0)
    requires AddCount(s, es, ino) <= MAX_VERSIONS
    requires OneName(Run(s, es).lower, dir, ino, name) && dir in Run(s, es).lower.dirs
    requires InsideMount(Run(s, es).lower, dir)
    ensures AddCount(s, es, ino) <= |ListOf(Run(s, es).vault.store, ino)| && ino in Run(s, es).lower.nodes
    ensures var (n, k) := (Run(s, es), AddCount(s, es, ino));
      && NamesFree(n.lower, dir, name, Newest(n, ino, k)) && AllSmooth(n, Newest(n, ino, k), envs) ==>
      Unwinds(n, dir, name, Newest(n, ino, k), envs,
              n.(lower := Unwound(n, dir, name, ino, k, name0, s.lower.nodes[ino])))
  {
    var n, k := Run(s, es), AddCount(s, es, ino);
    var name' := Forward(s, es, ino, dir, name0);
    var l := Newest(n, ino, k);
    assert HasEntry(n.lower, dir, name) && n.lower.dirs[dir][name] == ino;
    assert name == name';
    if NamesFree(n.lower, dir, name, l) && AllSmooth(n, l, envs) {
      AllStored(n, ino, l);
      UnwindContent(n.vault, l, n.lower.nodes[ino]);
      Backward(n, dir, name, ino, l, envs);
    }
  }

  lemma AllStored(s: Fs, ino: nat, l: seq<Version>)
    requires FsInv(s) && forall v :: v in l ==> v in ListOf(s.vault.store, ino)
    ensures SameData(s.vault, s.vault, l)
  {
    forall v | v in l && v.hasData ensures v.path in s.vault.shadow {
      assert VersionOk(s.vault, ino, v);
    }
  }

  /**
   * Full unwinding. If no handle could write without a snapshot at the start, the content is the one of the start as
   * well: the file is back as it was, although most writes of the run recorded nothing.
   */
  lemma FullUnwinding(s: Fs, es: seq<Event>, ino: nat, dir: string, name0: string, name: string, envs: seq<RollbackEnv>)
    requires FsInv(s) && ValidRun(s, es) && Follows(s, es, ino, dir)
    requires ino in s.lower.nodes && OneName(s.lower, dir, ino, name0) && !Marked(s, ino)
    requires AddCount(s, es, ino) <= MAX_VERSIONS
    requires OneName(Run(s, es).lower, dir, ino, name) && dir in Run(s, es).lower.dirs
    requires InsideMount(Run(s, es).lower, dir)
    ensures AddCount(s, es, ino) <= |ListOf(Run(s, es).vault.store, ino)|
    ensures var (n, l) := (Run(s, es), Newest(Run(s, es), ino, AddCount(s, es, ino)));
      && NamesFree(n.lower, dir, name, l) && AllSmooth(n, l, envs) ==>
      Unwinds(n, dir, name, l, envs, n.(lower := Restored(n.lower, dir, name, ino, name0, s.lower.nodes[ino])))
  {
    UnwindingReaches(s, es, ino, dir, name0, name, envs);
    UnwindsExactly(s, es, ino, dir, name0);
  }

  lemma UnwindsExactly(s: Fs, es: seq<Event>, ino: nat, dir: string, name0: string)
    requires FsInv(s) && ValidRun(s, es) && Follows(s, es, ino, dir)
    requires ino in s.lower.nodes && OneName(s.lower, dir, ino, name0) && !Marked(s, ino)
    requires AddCount(s, es, ino) <= MAX_VERSIONS
    ensures AddCount(s, es, ino) <= |ListOf(Run(s, es).vault.store, ino)| && ino in Run(s, es).lower.nodes
    ensures var (n, k) := (Run(s, es), AddCount(s, es, ino));
      Reached(n.vault, Newest(n, ino, k), n.lower.nodes[ino].content) == s.lower.nodes[ino].content
  {
    var n, k := Run(s, es), AddCount(s, es, ino);
    var name := Forward(s, es, ino, dir, name0);
    AllStored(n, ino, Newest(n, ino, k));
    UnwindContent(n.vault, Newest(n, ino, k), n.lower.nodes[ino]);
  }

  // ---------------------------------------------------------------- which moments can be restored

  /** A run on the file whose recorded versions do not lead back to the content that the file had in `s`. */
  ghost predicate LosesContent(s: Fs, es: seq<Event>, ino: nat, dir: string)
    requires ino in s.lower.nodes
  {
    && ValidRun(s, es) && Follows(s, es, ino, dir) && AddCount(s, es, ino) <= MAX_VERSIONS
    && var (n, k) := (Run(s, es), AddCount(s, es, ino));
    && ino in n.lower.nodes && k <= |ListOf(n.vault.store, ino)|
    && Reached(n.vault, Newest(n, ino, k), n.lower.nodes[ino].content) != s.lower.nodes[ino].content
  }

  lemma OneStepFollows(s: Fs, e: Event, ino: nat, dir: string)
    requires Enabled(s, e) && OnFile(s, e, ino, dir)
    ensures ValidRun(s, [e]) && Run(s, [e]) == Step(s, e) && Follows(s, [e], ino, dir)
    ensures AddCount(s, [e], ino) == if AddsTo(s, e, ino) then 1 else 0
  {
    OneStep(s, e);
    assert [e][..|[e]| - 1] == [];
    assert AddCount(s, [], ino) == 0;
  }

  /** One write through a marked handle is enough: it records nothing. */
  lemma MarkedLoses(s: Fs, ino: nat, dir: string) returns (es: seq<Event>)
    requires FsInv(s) && ino in s.lower.nodes && Marked(s, ino)
    ensures LosesContent(s, es, ino, dir)
  {
    var h :| h in s.handles && s.handles[h].ino == ino && s.handles[h].snapshotTaken && s.handles[h].writable;
    var was := s.lower.nodes[ino].content;
    var cap := CapEnv(0, false, CopyEnv(false, 0, 0, false, []), false, {});
    var e := Event.Write(h, cap, was + [0]);
    es := [e];
    assert Recorded(s, e) == Idle && Enabled(s, e);
    OneStepFollows(s, e, ino, dir);
    assert Newest(Step(s, e), ino, 0) == [];
    assert |was + [0]| != |was|;
  }

  /**
   * The moments that unwinding can restore, whatever comes after them, are exactly those at which no open handle is
   * both writable and marked.
   */
  lemma RestorableIff(s: Fs, ino: nat, dir: string, name0: string)
    requires FsInv(s) && ino in s.lower.nodes && OneName(s.lower, dir, ino, name0)
    ensures !Marked(s, ino) <==> forall es :: !LosesContent(s, es, ino, dir)
  {
    if Marked(s, ino) {
      var es := MarkedLoses(s, ino, dir);
    } else {
      forall es ensures !LosesContent(s, es, ino, dir) {
        if LosesContent(s, es, ino, dir) {
          UnwindsExactly(s, es, ino, dir, name0);
        }
      }
    }
  }

  // ---------------------------------------------------------------- when nothing else happens

  /** Only operations on the file. */
  ghost predicate Alone(s: Fs, es: seq<Event>, ino: nat, dir: string)
    requires ValidRun(s, es)
    decreases |es|
  {
    es == [] ||
    (var front, last := es[..|es| - 1], es[|es| - 1];
     Alone(s, front, ino, dir) && OnFile(Run(s, front), last, ino, dir))
  }

  lemma {:induction false} AloneFollows(s: Fs, es: seq<Event>, ino: nat, dir: string)
    requires ValidRun(s, es) && Alone(s, es, ino, dir)
    ensures Follows(s, es, ino, dir)
    decreases |es|
  {
    if es != [] {
      AloneFollows(s, es[..|es| - 1], ino, dir);
    }
  }

  /** Only the file itself has changed since `lo0`, and all names it ever had were free there. */
  ghost predicate Moved(lo0: Lower, s: Fs, k: nat, ino: nat, dir: string, name0: string, name: string) {
    && dir in lo0.dirs && ino in s.lower.nodes && k <= |ListOf(s.vault.store, ino)|
    && s.lower == Restored(lo0, dir, name0, ino, name, s.lower.nodes[ino])
    && name !in Besides(lo0, dir, name0)
    && NamesAvoid(Newest(s, ino, k), Besides(lo0, dir, name0))
  }

  ghost predicate NamesAvoid(l: seq<Version>, o: map<string, nat>) {
    forall v :: v in l && v.op == OpRename ==> v.name !in o
  }

  /** The names among the newest versions after a step. */
  lemma NamesAfter(s: Fs, e: Event, k: nat, ino: nat, dir: string, o: map<string, nat>)
    requires FsInv(s) && Enabled(s, e) && OnFile(s, e, ino, dir)
    requires k <= |ListOf(s.vault.store, ino)| && NamesAvoid(Newest(s, ino, k), o)
    requires AddsTo(s, e, ino) ==> k < MAX_VERSIONS
    requires e.Rename? ==> e.name !in o
    ensures var k' := k + if AddsTo(s, e, ino) then 1 else 0;
      k' <= |ListOf(Step(s, e).vault.store, ino)| && NamesAvoid(Newest(Step(s, e), ino, k'), o)
  {
    if CapturesInode(Recorded(s, e), ino) {
      NewestAfter(s, e, k, ino);
    } else {
      ListKept(s, e, ino);
    }
  }

  lemma MovedStep(lo0: Lower, s: Fs, e: Event, k: nat, ino: nat, dir: string, name0: string, name: string)
    returns (name': string)
    requires FsInv(s) && Enabled(s, e) && OnFile(s, e, ino, dir)
    requires AddsTo(s, e, ino) ==> k < MAX_VERSIONS
    requires Moved(lo0, s, k, ino, dir, name0, name) && ino !in Besides(lo0, dir, name0).Values
    ensures Moved(lo0, Step(s, e), k + if AddsTo(s, e, ino) then 1 else 0, ino, dir, name0, name')
  {
    name' := if e.Rename? then e.newName else name;
    if e.Rename? {
      OwnEntry(lo0, s.lower, ino, dir, name0, name, e.name);
    }
    MovedLower(lo0, s, e, ino, dir, name0, name);
    NamesAfter(s, e, k, ino, dir, Besides(lo0, dir, name0));
  }

  lemma MovedLower(lo0: Lower, s: Fs, e: Event, ino: nat, dir: string, name0: string, name: string)
    requires Enabled(s, e) && OnFile(s, e, ino, dir) && ino in s.lower.nodes && dir in lo0.dirs
    requires s.lower == Restored(lo0, dir, name0, ino, name, s.lower.nodes[ino])
    requires name !in Besides(lo0, dir, name0) && (e.Rename? ==> e.name == name)
    ensures var lo, n := LowerStep(s, e), if e.Rename? then e.newName else name;
      && ino in lo.nodes && lo == Restored(lo0, dir, name0, ino, n, lo.nodes[ino]) && n !in Besides(lo0, dir, name0)
  {
    if e.Rename? {
      RenameMoves(lo0, s.lower, ino, dir, name0, name, e.newName);
    } else {
      assert LowerStep(s, e).dirs == s.lower.dirs;
      assert LowerStep(s, e).nodes == lo0.nodes[ino := LowerStep(s, e).nodes[ino]];
    }
  }

  lemma OwnEntry(lo0: Lower, lo: Lower, ino: nat, dir: string, name0: string, name: string, other: string)
    requires dir in lo0.dirs && ino !in Besides(lo0, dir, name0).Values
    requires lo.dirs == lo0.dirs[dir := Besides(lo0, dir, name0)[name := ino]]
    requires other in lo.dirs[dir] && lo.dirs[dir][other] == ino
    ensures other == name
  {
    if other != name {
      assert false;
    }
  }

  lemma RenameMoves(lo0: Lower, lo: Lower, ino: nat, dir: string, name0: string, name: string, newName: string)
    requires dir in lo0.dirs && name !in Besides(lo0, dir, name0) && ino in lo.nodes
    requires lo == Restored(lo0, dir, name0, ino, name, lo.nodes[ino])
    requires newName !in lo.dirs[dir]
    ensures RenameEntry(lo, dir, name, dir, newName) == Restored(lo0, dir, name0, ino, newName, lo.nodes[ino])
    ensures newName !in Besides(lo0, dir, name0)
  {
    var o := Besides(lo0, dir, name0);
    var d: map<string, nat> := o[name := ino];
    assert d - {name} == o;
    assert lo.dirs[dir] == d;
  }

  lemma {:induction false} ForwardAlone(s: Fs, es: seq<Event>, ino: nat, dir: string, name0: string)
    returns (name: string)
    requires FsInv(s) && ValidRun(s, es) && Alone(s, es, ino, dir)
    requires ino in s.lower.nodes && OneName(s.lower, dir, ino, name0) && dir in s.lower.dirs
    requires AddCount(s, es, ino) <= MAX_VERSIONS
    ensures Moved(s.lower, Run(s, es), AddCount(s, es, ino), ino, dir, name0, name)
    ensures ino !in Besides(s.lower, dir, name0).Values
    decreases |es|
  {
    assert ino !in Besides(s.lower, dir, name0).Values by {
      forall nm | nm in Besides(s.lower, dir, name0) ensures Besides(s.lower, dir, name0)[nm] != ino {
        assert HasEntry(s.lower, dir, nm);
      }
    }
    if es == [] {
      name := name0;
      assert HasEntry(s.lower, dir, name0) && Newest(s, ino, 0) == [];
      assert s.lower.dirs[dir] == Besides(s.lower, dir, name0)[name0 := ino];
    } else {
      var front, last := es[..|es| - 1], es[|es| - 1];
      name := ForwardAlone(s, front, ino, dir, name0);
      RunInv(s, front);
      name := MovedStep(s.lower, Run(s, front), last, AddCount(s, front, ino), ino, dir, name0, name);
    }
  }

  /** If nothing but operations on the file happened, unwinding restores the whole lower file system. */
  lemma FullUnwindingAlone(s: Fs, es: seq<Event>, ino: nat, dir: string, name0: string, envs: seq<RollbackEnv>)
    returns (name: string)
    requires FsInv(s) && ValidRun(s, es) && Alone(s, es, ino, dir)
    requires ino in s.lower.nodes && OneName(s.lower, dir, ino, name0) && InsideMount(s.lower, dir) && !Marked(s, ino)
    requires AddCount(s, es, ino) <= MAX_VERSIONS
    ensures AddCount(s, es, ino) <= |ListOf(Run(s, es).vault.store, ino)|
    ensures var (n, l) := (Run(s, es), Newest(Run(s, es), ino, AddCount(s, es, ino)));
      && OneName(n.lower, dir, ino, name)
      && (AllSmooth(n, l, envs) ==> Unwinds(n, dir, name, l, envs, n.(lower := s.lower)))
  {
    assert HasEntry(s.lower, dir, name0);
    var n, k := Run(s, es), AddCount(s, es, ino);
    AloneFollows(s, es, ino, dir);
    name := Forward(s, es, ino, dir, name0);
    var name' := ForwardAlone(s, es, ino, dir, name0);
    MovedName(s.lower, n, k, ino, dir, name0, name', name);
    MovedBack(s.lower, n, k, ino, dir, name0, name);
    FullUnwinding(s, es, ino, dir, name0, name, envs);
  }

  lemma MovedName(lo0: Lower, n: Fs, k: nat, ino: nat, dir: string, name0: string, name': string, name: string)
    requires Moved(lo0, n, k, ino, dir, name0, name') && OneName(n.lower, dir, ino, name)
    ensures name' == name
  {
    assert HasEntry(n.lower, dir, name');
  }

  /** Putting the moved file back gives the lower file system it was moved in. */
  lemma MovedBack(lo0: Lower, n: Fs, k: nat, ino: nat, dir: string, name0: string, name: string)
    requires Moved(lo0, n, k, ino, dir, name0, name)
    requires HasEntry(lo0, dir, name0) && lo0.dirs[dir][name0] == ino && ino in lo0.nodes
    ensures dir in n.lower.dirs && NamesFree(n.lower, dir, name, Newest(n, ino, k))
    ensures Restored(n.lower, dir, name, ino, name0, lo0.nodes[ino]) == lo0
  {
    assert Besides(n.lower, dir, name) == Besides(lo0, dir, name0);
    var d: map<string, nat> := Besides(lo0, dir, name0)[name0 := ino];
    assert d == lo0.dirs[dir];
    var r := Restored(n.lower, dir, name, ino, name0, lo0.nodes[ino]);
    assert r.dirs == lo0.dirs && r.nodes == lo0.nodes;
  }
}
