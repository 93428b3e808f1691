/** What holds over whole runs: where a version comes from, how long it stays, what a rollback to it gives back. */
module Histories {
  import opened CowTypes
  import opened ShadowCopy
  import opened VersionLists
  import opened Vaults
  import opened LowerFs
  import opened CowFsModel

  /** The state just before step `i` of a run. */
  ghost function At(s: Fs, es: seq<Event>, i: nat): Fs
    requires i <= |es| && ValidRun(s, es)
    ensures ValidRun(s, es[..i])
    ensures i < |es| ==> Enabled(Run(s, es[..i]), es[i])
  {
    Prefixes(s, es, i);
    Run(s, es[..i])
  }

  lemma {:induction false} Prefixes(s: Fs, es: seq<Event>, i: nat)
    requires i <= |es| && ValidRun(s, es)
    ensures ValidRun(s, es[..i])
    ensures i < |es| ==> Enabled(Run(s, es[..i]), es[i])
    decreases |es|
  {
    if i < |es| {
      var front := es[..|es| - 1];
      if i < |front| {
        Prefixes(s, front, i);
      }
      assert front[..i] == es[..i];
    } else {
      assert es[..i] == es;
    }
  }

  lemma OneStep(s: Fs, e: Event)
    requires Enabled(s, e)
    ensures ValidRun(s, [e]) && Run(s, [e]) == Step(s, e)
  {
    assert [e][..|[e]| - 1] == [];
    assert Run(s, []) == s;
  }

  // ---------------------------------------------------------------- where versions come from

  /** Step `i` of the run is the capture that published `w` on the list of `ino`. */
  ghost predicate Origin(s: Fs, es: seq<Event>, i: nat, ino: nat, w: Version)
    requires ValidRun(s, es)
  {
    && i < |es|
    && var si := At(s, es, i);
       var r := Recorded(si, es[i]);
    && ino in si.lower.nodes
    && r.Capture? && r.ino == ino
    && Published(si.vault, r) == Some(w)
    && r.content == si.lower.nodes[ino].content && r.stat == StatOf(si.lower.nodes[ino])
  }

  /** The shadow file of `w` in vault `va` is what its inode held at step `i`, unless a write of the copy was short. */
  ghost predicate HoldsContentOf(va: Vault, s: Fs, es: seq<Event>, i: nat, ino: nat, w: Version)
    requires ValidRun(s, es) && Origin(s, es, i, ino, w)
  {
    var si := At(s, es, i);
    && w.path in va.shadow
    && (va.shadow[w.path] == si.lower.nodes[ino].content <==> FullWrites(Recorded(si, es[i]).cap.copy.io))
  }

  lemma OriginIsLast(s: Fs, es: seq<Event>, ino: nat, w: Version)
    requires FsInv(s) && ValidRun(s, es) && es != []
    requires w in ListOf(Run(s, es).vault.store, ino) && w !in ListOf(Run(s, es[..|es| - 1]).vault.store, ino)
    ensures Origin(s, es, |es| - 1, ino, w)
    ensures w.hasData ==> HoldsContentOf(Run(s, es).vault, s, es, |es| - 1, ino, w)
  {
    var t, r := At(s, es, |es| - 1), Recorded(At(s, es, |es| - 1), es[|es| - 1]);
    RunInv(s, es[..|es| - 1]);
    AppearsByCapture(t.vault, r, ino, w);
    if w.hasData {
      CopySucceeds(r.content, r.cap.copy);
    }
  }

  lemma AtFront(s: Fs, es: seq<Event>, i: nat)
    requires ValidRun(s, es) && i < |es| - 1
    ensures At(s, es[..|es| - 1], i) == At(s, es, i) && es[..|es| - 1][i] == es[i]
  {
    assert es[..|es| - 1][..i] == es[..i];
  }

  /**
   * Every version that a run left in the store was published by one of its steps, and the shadow file of a version
   * with data still equals what its inode held at that moment, unless a write of that copy was short.
   */
  lemma {:induction false} HasOrigin(s: Fs, es: seq<Event>, ino: nat, w: Version) returns (i: nat)
    requires FsInv(s) && ValidRun(s, es)
    requires w in ListOf(Run(s, es).vault.store, ino) && w !in ListOf(s.vault.store, ino)
    ensures Origin(s, es, i, ino, w)
    ensures w.hasData ==> HoldsContentOf(Run(s, es).vault, s, es, i, ino, w)
    decreases |es|
  {
    var front := es[..|es| - 1];
    if w in ListOf(Run(s, front).vault.store, ino) {
      i := HasOrigin(s, front, ino, w);
      AtFront(s, es, i);
      if w.hasData {
        RunInv(s, front);
        ShadowStays(Run(s, front).vault, Recorded(Run(s, front), es[|es| - 1]), ino, w);
      }
    } else {
      i := |es| - 1;
      OriginIsLast(s, es, ino, w);
    }
  }

  /** A rollback by timestamp selects the version that carries it; timestamp 0 selects the newest. */
  lemma SelectsByTime(s: Fs, path: string, ino: nat, v: Version)
    requires FsInv(s) && Resolve(s.lower, path) == Some(ino) && v in ListOf(s.vault.store, ino)
    ensures Selected(s, path, v.ts) == Some(v) && 0 < v.ts
    ensures Selected(s, path, 0) == Some(s.vault.store[ino][0])
  {
    assert VersionOk(s.vault, ino, v);
    FindsEach(s.vault, ino);
  }

  /** A rollback of saved data that returns 0 sets the content to it and changes no directory and no other file. */
  lemma SuccessfulRestore(s: Fs, path: string, ts: nat, env: RollbackEnv)
    requires FsInv(s) && RollbackLegal(s, path, ts, env) && path !in s.lower.foreign
    requires Resolve(s.lower, path).Some? && Selected(s, path, ts).Some?
    requires Selected(s, path, ts).value.op != OpUnlink && Selected(s, path, ts).value.hasData
    requires Rollback(s, path, ts, env).0 == 0 && FullWrites(env.restore.io)
    ensures var ino := Resolve(s.lower, path).value;
      var v := Selected(s, path, ts).value;
      var r := Rollback(s, path, ts, env).1;
      && r.dirs == s.lower.dirs && r.nodes.Keys == s.lower.nodes.Keys && ino in r.nodes
      && (forall j :: j in s.lower.nodes && j != ino ==> r.nodes[j] == s.lower.nodes[j])
      && v.path in s.vault.shadow && r.nodes[ino].content == s.vault.shadow[v.path]
  {
    var ino := Resolve(s.lower, path).value;
    RestoreSucceeds(Saved(s.vault, Selected(s, path, ts).value), s.lower.nodes[ino].content, env.restore);
  }

  /**
   * Point in time: whatever happened since its capture, a successful rollback to a retained version with data,
   * through any path that now leads to the inode, gives the inode exactly the content it held at that capture,
   * and changes no directory and no other file. (The capture's own writes must not have been short.)
   */
  lemma PointInTime(s: Fs, es: seq<Event>, path: string, ino: nat, v: Version, env: RollbackEnv) returns (i: nat)
    requires FsInv(s) && ValidRun(s, es)
    requires v in ListOf(Run(s, es).vault.store, ino) && v !in ListOf(s.vault.store, ino)
    requires v.hasData && v.op != OpUnlink
    requires Resolve(Run(s, es).lower, path) == Some(ino) && path !in Run(s, es).lower.foreign
    requires RollbackLegal(Run(s, es), path, v.ts, env)
    requires Rollback(Run(s, es), path, v.ts, env).0 == 0 && FullWrites(env.restore.io)
    ensures Origin(s, es, i, ino, v)
    ensures var lo := Run(s, es).lower;
            var r := Rollback(Run(s, es), path, v.ts, env).1;
      && r.dirs == lo.dirs && r.nodes.Keys == lo.nodes.Keys
      && (forall j :: j in lo.nodes && j != ino ==> r.nodes[j] == lo.nodes[j])
      && ino in r.nodes
      && (FullWrites(Recorded(At(s, es, i), es[i]).cap.copy.io) <==>
          r.nodes[ino].content == At(s, es, i).lower.nodes[ino].content)
  {
    var n := Run(s, es);
    RunInv(s, es);
    i := HasOrigin(s, es, ino, v);
    SelectsByTime(n, path, ino, v);
    SuccessfulRestore(n, path, v.ts, env);
  }

  // ---------------------------------------------------------------- how long versions stay

  predicate CapturesInode(r: VaultEvent, ino: nat) {
    r.Capture? && r.ino == ino
  }

  /** The step adds a version to the list of `ino`. */
  ghost predicate AddsTo(s: Fs, e: Event, ino: nat)
    requires Enabled(s, e)
  {
    Adds(s.vault, Recorded(s, e), ino)
  }

  /** How many steps of the run add a version to the list of `ino`; captures that fail do not. */
  ghost function AddCount(s: Fs, es: seq<Event>, ino: nat): nat
    requires ValidRun(s, es)
    decreases |es|
  {
    if es == [] then 0
    else
      var front, last := es[..|es| - 1], es[|es| - 1];
      AddCount(s, front, ino) + if AddsTo(Run(s, front), last, ino) then 1 else 0
  }

  /** No collection of the run expires a version stamped `ts`. */
  ghost predicate NeverExpired(es: seq<Event>, ts: nat) {
    forall i :: 0 <= i < |es| && es[i].Collection? ==> Cutoff(es[i].now, es[i].window) <= ts
  }

  /** A version at place `k` of its list survives any run with fewer than `64 - k` later additions to it. */
  lemma {:induction false} Retention(s: Fs, es: seq<Event>, ino: nat, k: nat) returns (k': nat)
    requires FsInv(s) && ValidRun(s, es)
    requires ino in s.vault.store && k < |s.vault.store[ino]|
    requires k + AddCount(s, es, ino) < MAX_VERSIONS
    requires NeverExpired(es, s.vault.store[ino][k].ts)
    ensures k' <= k + AddCount(s, es, ino)
    ensures var m := Run(s, es).vault.store; ino in m && k' < |m[ino]| && m[ino][k'] == s.vault.store[ino][k]
    decreases |es|
  {
    k' := k;
    if es != [] {
      var front, last := es[..|es| - 1], es[|es| - 1];
      assert forall i :: 0 <= i < |front| ==> front[i] == es[i];
      k' := Retention(s, front, ino, k);
      RunInv(s, front);
      k' := Position(Run(s, front).vault, Recorded(Run(s, front), last), ino, k');
    }
  }

  /** The newest version stays findable by its timestamp through at least 63 later additions to its list. */
  lemma StaysFindable(s: Fs, es: seq<Event>, ino: nat)
    requires FsInv(s) && ValidRun(s, es)
    requires ino in s.vault.store && s.vault.store[ino] != []
    requires AddCount(s, es, ino) <= MAX_VERSIONS - 1
    requires NeverExpired(es, s.vault.store[ino][0].ts)
    ensures var v := s.vault.store[ino][0]; Find(ListOf(Run(s, es).vault.store, ino), v.ts) == Some(v)
  {
    var k := Retention(s, es, ino, 0);
    RunInv(s, es);
    FindsEach(Run(s, es).vault, ino);
  }

  /** Step `i` of the run pushes `w` out of a full list, or expires it. */
  ghost predicate LostAt(s: Fs, es: seq<Event>, i: nat, ino: nat, w: Version)
    requires ValidRun(s, es)
  {
    && i < |es|
    && var si := At(s, es, i);
       var r := Recorded(si, es[i]);
    || (Adds(si.vault, r, ino) && Evicted(ListOf(si.vault.store, ino)) == Some(w))
    || (r.Gc? && w.ts < Cutoff(r.now, r.window))
  }

  /** A version that is gone left at some step, as the last of a full list or by expiry; there is no other way out. */
  lemma {:induction false} WhyGone(s: Fs, es: seq<Event>, ino: nat, w: Version) returns (i: nat)
    requires ValidRun(s, es)
    requires w in ListOf(s.vault.store, ino) && w !in ListOf(Run(s, es).vault.store, ino)
    ensures LostAt(s, es, i, ino, w)
    decreases |es|
  {
    var front := es[..|es| - 1];
    if w in ListOf(Run(s, front).vault.store, ino) {
      i := |es| - 1;
      var t := At(s, es, i);
      LeavesOnlyBy(t.vault, Recorded(t, es[i]), ino, w);
    } else {
      i := WhyGone(s, front, ino, w);
      AtFront(s, es, i);
    }
  }

  // ---------------------------------------------------------------- one snapshot per handle

  /** How many snapshots the run takes through handle `h`. */
  ghost function SnapshotCount(s: Fs, es: seq<Event>, h: nat): nat
    requires ValidRun(s, es)
    decreases |es|
  {
    if es == [] then 0
    else
      var front, last := es[..|es| - 1], es[|es| - 1];
      SnapshotCount(s, front, h)
      + if last.Write? && last.h == h && Snapshots(Run(s, front).handles[h]) then 1 else 0
  }

  predicate KeepsOpen(es: seq<Event>, h: nat) {
    forall i :: 0 <= i < |es| ==> es[i] != Close(h)
  }

  /** An open handle takes at most one snapshot, none if it is already marked, and the mark never goes away. */
  lemma {:induction false} OneSnapshotPerHandle(s: Fs, es: seq<Event>, h: nat)
    requires ValidRun(s, es) && h in s.handles && KeepsOpen(es, h)
    ensures var n := Run(s, es).handles;
      && h in n && n[h].ino == s.handles[h].ino && n[h].writable == s.handles[h].writable
      && (s.handles[h].snapshotTaken ==> n[h].snapshotTaken)
      && SnapshotCount(s, es, h) + (if s.handles[h].snapshotTaken then 1 else 0)
         <= if n[h].snapshotTaken then 1 else 0
    decreases |es|
  {
    if es != [] {
      var front, last := es[..|es| - 1], es[|es| - 1];
      assert forall i :: 0 <= i < |front| ==> front[i] == es[i];
      OneSnapshotPerHandle(s, front, h);
    }
  }

  /** WRITE versions come only from those snapshots. */
  lemma WriteVersionsAreSnapshots(s: Fs, es: seq<Event>, ino: nat, w: Version) returns (i: nat)
    requires FsInv(s) && ValidRun(s, es) && w.op == OpWrite
    requires w in ListOf(Run(s, es).vault.store, ino) && w !in ListOf(s.vault.store, ino)
    ensures i < |es| && es[i].Write? && es[i].cap.ts == w.ts
    ensures es[i].h in At(s, es, i).handles && Snapshots(At(s, es, i).handles[es[i].h])
    ensures At(s, es, i).handles[es[i].h].ino == ino
  {
    i := HasOrigin(s, es, ino, w);
  }

  /** Everything needed for a capture to succeed, with the saved bytes exact. */
  predicate CaptureSucceeds(s: Fs, r: VaultEvent) {
    && r.Capture? && Legal(s.vault, r) && r.cap.alloc && (r.cap.record || r.ino in s.vault.store)
    && (r.withData ==> Copy(r.content, r.cap.copy).0 == 0 && FullWrites(r.cap.copy.io))
  }

  /** A capture that succeeds puts its version first and its data, if any, in the shadow directory. */
  lemma CaptureSaves(s: Fs, e: Event)
    requires FsInv(s) && Enabled(s, e) && CaptureSucceeds(s, Recorded(s, e))
    ensures var r := Recorded(s, e);
      var v := NewVersion(s.vault, r);
      var n := Step(s, e).vault;
      && r.ino in n.store && n.store[r.ino] == Insert(ListOf(s.vault.store, r.ino), v)
      && n.clock == v.ts
      && (v.hasData ==> Saved(n, v) == Some(r.content))
  {
    var r := Recorded(s, e);
    CopiedInv(s.vault, r);
    PublishedIsFresh(s.vault, r);
    if r.withData {
      CopySucceeds(r.content, r.cap.copy);
      PublishKeepsOwnFile(Copied(s.vault, r), r.ino, NewVersion(s.vault, r), r.cap.record, r.cap.stuck);
    }
  }

  /** After a truncating open the handle takes no snapshot: the newest version already holds the content before it. */
  lemma TruncatingOpenTakesNone(s: Fs, e: Event, es: seq<Event>)
    requires FsInv(s) && Enabled(s, e) && ValidRun(Step(s, e), es)
    requires e.Setattr? && e.err == 0 && e.attr.size.Some? && e.file.Some? && KeepsOpen(es, e.file.value)
    ensures SnapshotCount(Step(s, e), es, e.file.value) == 0
    ensures CaptureSucceeds(s, Recorded(s, e)) ==>
      var n := Step(s, e).vault;
      && e.ino in n.store && n.store[e.ino] != [] && n.store[e.ino][0].op == OpSetattr
      && Saved(n, n.store[e.ino][0]) == Some(s.lower.nodes[e.ino].content)
  {
    OneSnapshotPerHandle(Step(s, e), es, e.file.value);
    if CaptureSucceeds(s, Recorded(s, e)) {
      CaptureSaves(s, e);
    }
  }
}
