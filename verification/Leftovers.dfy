/** Which shadow files nobody will ever remove: those of versions that were dropped or freed without them. */
module Leftovers {
  import opened CowTypes
  import opened ShadowNames
  import opened ShadowCopy
  import opened VersionLists
  import opened Vaults
  import opened CowFsModel
  import opened Histories

  /** The shadow file belongs to a listed version. */
  ghost predicate Owned(va: Vault, p: string) {
    exists ino, v :: ino in va.store && v in va.store[ino] && v.hasData && v.path == p
  }

  /** There is nothing in the shadow directory that does not belong to a listed version. */
  ghost predicate Tidy(va: Vault) {
    forall p :: p in va.shadow ==> Owned(va, p)
  }

  /** The copy gets as far as creating its shadow file. */
  predicate Creates(e: VaultEvent)
    requires e.Capture? && (e.withData ==> CopyLegal(e.content, e.cap.copy))
  {
    e.withData && Copy(e.content, e.cap.copy).1.Some?
  }

  /**
   * A capture that creates its shadow file and then either fails to fill it or cannot record the version:
   * the version is dropped, or published without data, and in neither case does anybody remember the file.
   */
  predicate Unfilled(va: Vault, e: VaultEvent)
    requires Legal(va, e)
  {
    && e.Capture? && e.cap.alloc && Creates(e)
    && (Copy(e.content, e.cap.copy).0 != 0 || (e.ino !in va.store && !e.cap.record))
  }

  /** The step takes `v` off the list of `ino` and frees it: the last of a full list, or an expired one. */
  predicate Drops(va: Vault, e: VaultEvent, ino: nat, v: Version)
    requires Legal(va, e)
  {
    && ino in va.store && v in va.store[ino]
    && ((Adds(va, e, ino) && Evicted(va.store[ino]) == Some(v)) || (e.Gc? && v.ts < Cutoff(e.now, e.window)))
  }

  function ReachIn(va: Vault, e: VaultEvent): Reach {
    match e
    case Capture(_, _, _, _, _, _, cap) => ReachOf(va.attached, cap.stuck)
    case Gc(_, _, stuck) => ReachOf(va.attached, stuck)
    case _ => Nothing
  }

  /** A version is freed and its shadow file is not removed, which nobody reports. */
  ghost predicate Unremoved(va: Vault, e: VaultEvent)
    requires Legal(va, e)
  {
    exists ino, v :: Drops(va, e, ino, v) && v.hasData && !Reaches(ReachIn(va, e), v.path)
  }

  ghost predicate Strands(va: Vault, e: VaultEvent)
    requires Legal(va, e)
  {
    Unfilled(va, e) || Unremoved(va, e)
  }

  /** The file of that inode and timestamp is there, and no version can lead to it. */
  ghost predicate Stray(va: Vault, ino: nat, ts: nat) {
    && ino < U64_RANGE && ts <= va.clock
    && MakePath(va.root, ino, ts) in va.shadow && !Owned(va, MakePath(va.root, ino, ts))
  }

  /** Freeing a listed version removes its own file. */
  lemma FreesOwnFile(va: Vault, ino: nat, v: Version)
    requires VaultInv(va) && ino in va.store && v in va.store[ino] && v.hasData
    ensures RemovalTarget(va.root, v.path) == v.path && Owned(va, v.path)
  {
    assert VersionOk(va, ino, v);
    ShortRootFits(va.root, ino, v.ts);
    RemovalHitsTheCopy(va.root, ino, v.ts);
  }

  /** A shadow file names its listed version. */
  lemma SamePath(va: Vault, i: nat, a: Version, j: nat, b: Version)
    requires VaultInv(va) && i in va.store && a in va.store[i] && j in va.store && b in va.store[j]
    requires a.hasData && b.hasData && a.path == b.path
    ensures i == j && a == b
  {
    assert VersionOk(va, i, a) && VersionOk(va, j, b);
    FreesOwnFile(va, i, a);
    TargetIsOwn(va, i, a, j, b);
    SameTime(va, i, a, j, b);
  }

  // ---------------------------------------------------------------- a step that leaves nothing behind

  /** A listed version whose file survives a publication is still listed, unless its removal did not get at the file. */
  lemma OwnerStays(va: Vault, ino: nat, v: Version, record: bool, stuck: set<string>, i: nat, w: Version)
    requires VaultInv(va) && (ino in va.store || record)
    requires i in va.store && w in va.store[i] && w.hasData && w.path in Publish(va, ino, v, record, stuck).shadow
    requires i == ino && Evicted(va.store[i]) == Some(w) ==> Reaches(ReachOf(va.attached, stuck), w.path)
    ensures w in ListOf(Publish(va, ino, v, record, stuck).store, i)
  {
    var l := ListOf(va.store, ino);
    if i == ino && w !in Insert(l, v) {
      InsertLoses(l, v, w);
      FreesOwnFile(va, i, w);
      assert false;
    }
  }

  /** A shadow file that survives a publication still has its owner. */
  lemma PublishTidy(va: Vault, ino: nat, v: Version, record: bool, stuck: set<string>, p: string)
    requires VaultInv(va) && (ino in va.store || record)
    requires p in Publish(va, ino, v, record, stuck).shadow && Owned(va, p)
    requires forall w :: Evicted(ListOf(va.store, ino)) == Some(w) && w.hasData ==>
               Reaches(ReachOf(va.attached, stuck), w.path)
    ensures Owned(Publish(va, ino, v, record, stuck), p)
  {
    var i, w :| i in va.store && w in va.store[i] && w.hasData && w.path == p;
    OwnerStays(va, ino, v, record, stuck, i, w);
  }

  lemma PublishOwns(va: Vault, ino: nat, v: Version, record: bool, stuck: set<string>)
    requires (ino in va.store || record) && v.hasData
    ensures Owned(Publish(va, ino, v, record, stuck), v.path)
  {
    var r := Publish(va, ino, v, record, stuck);
    assert r.store[ino] == Insert(ListOf(va.store, ino), v);
    assert r.store[ino][0] == v;
  }

  lemma CollectionTidy(va: Vault, e: VaultEvent, p: string)
    requires VaultInv(va) && Legal(va, e) && e.Gc? && !Strands(va, e)
    requires p in VaultStep(va, e).shadow && Owned(va, p)
    ensures Owned(VaultStep(va, e), p)
  {
    var i, w :| i in va.store && w in va.store[i] && w.hasData && w.path == p;
    FreesOwnFile(va, i, w);
    if w.ts < Cutoff(e.now, e.window) {
      assert Drops(va, e, i, w);
      assert Doomed(va.store, va.root, Cutoff(e.now, e.window), p);
      assert false;
    }
    assert w in VaultStep(va, e).store[i];
  }

  /** A step that strands no file leaves a tidy shadow directory tidy. */
  lemma StepTidy(va: Vault, e: VaultEvent)
    requires VaultInv(va) && Legal(va, e) && Tidy(va) && !Strands(va, e)
    ensures Tidy(VaultStep(va, e))
  {
    var r := VaultStep(va, e);
    forall p | p in r.shadow ensures Owned(r, p) {
      if e.Gc? {
        CollectionTidy(va, e, p);
      } else if e.Capture? && e.cap.alloc {
        CopiedInv(va, e);
        CaptureTidy(va, e, p);
      } else {
        SameOwner(va, r, p);
      }
    }
  }

  lemma SameOwner(va: Vault, r: Vault, p: string)
    requires Owned(va, p) && va.store == r.store
    ensures Owned(r, p)
  {
  }

  lemma AddingStep(va: Vault, e: VaultEvent)
    requires e.Capture? && Legal(va, e) && Adds(va, e, e.ino)
    ensures VaultStep(va, e) == Publish(Copied(va, e), e.ino, Published(va, e).value, e.cap.record, e.cap.stuck)
    ensures Copied(va, e).store == va.store && Copied(va, e).attached == va.attached
    ensures Creates(e) && !Unfilled(va, e) ==> Published(va, e) == Some(NewVersion(va, e))
  {
  }

  lemma OtherStep(va: Vault, e: VaultEvent)
    requires e.Capture? && e.cap.alloc && Legal(va, e) && !Adds(va, e, e.ino) && !Unfilled(va, e)
    ensures VaultStep(va, e).store == va.store && VaultStep(va, e).shadow == va.shadow
  {
    assert Copied(va, e).shadow == va.shadow;
    assert VaultStep(va, e) == Copied(va, e);
  }

  lemma CopiedFile(va: Vault, e: VaultEvent, p: string)
    requires e.Capture? && Legal(va, e) && p in Copied(va, e).shadow
    ensures p in va.shadow || (Creates(e) && p == MakePath(va.root, e.ino, e.cap.ts))
  {
  }

  lemma CaptureTidy(va: Vault, e: VaultEvent, p: string)
    requires e.Capture? && e.cap.alloc && Legal(va, e) && !Strands(va, e)
    requires VaultInv(Copied(va, e)) && Tidy(va)
    requires p in VaultStep(va, e).shadow
    ensures Owned(VaultStep(va, e), p)
  {
    if !Adds(va, e, e.ino) {
      OtherStep(va, e);
      SameOwner(va, VaultStep(va, e), p);
    } else {
      var mid, v := Copied(va, e), Published(va, e).value;
      AddingStep(va, e);
      PublishSurvivor(mid, e.ino, v, e.cap.record, e.cap.stuck, p);
      CopiedFile(va, e, p);
      if p in va.shadow {
        SameOwner(va, mid, p);
        EvictedIsReached(va, e);
        PublishTidy(mid, e.ino, v, e.cap.record, e.cap.stuck, p);
      } else {
        PublishOwns(mid, e.ino, v, e.cap.record, e.cap.stuck);
      }
    }
  }

  lemma EvictedIsReached(va: Vault, e: VaultEvent)
    requires e.Capture? && Legal(va, e) && !Unremoved(va, e) && Adds(va, e, e.ino)
    ensures forall w :: Evicted(ListOf(va.store, e.ino)) == Some(w) && w.hasData ==> Reaches(ReachIn(va, e), w.path)
  {
    forall w | Evicted(ListOf(va.store, e.ino)) == Some(w) && w.hasData ensures Reaches(ReachIn(va, e), w.path) {
      assert Drops(va, e, e.ino, w);
    }
  }

  /** Publishing creates no file. */
  lemma PublishSurvivor(va: Vault, ino: nat, v: Version, record: bool, stuck: set<string>, p: string)
    requires p in Publish(va, ino, v, record, stuck).shadow
    ensures p in va.shadow
  {
  }

  // ---------------------------------------------------------------- a step that does

  /** A capture that does not fill its file or record its version leaves the file behind. */
  lemma UnfilledStrands(va: Vault, e: VaultEvent)
    requires VaultInv(va) && Legal(va, e) && Unfilled(va, e)
    ensures Stray(VaultStep(va, e), e.ino, e.cap.ts)
  {
    var p, r, mid := MakePath(va.root, e.ino, e.cap.ts), VaultStep(va, e), Copied(va, e);
    CopiedInv(va, e);
    forall i, w | i in va.store && w in va.store[i] && w.hasData ensures w.path != p {
      NewPathIsFree(va, e, i, w);
    }
    assert p in mid.shadow && !Owned(mid, p);
    if Published(va, e).Some? {
      PublishStray(mid, e.ino, Published(va, e).value, e.cap.record, e.cap.stuck, p);
    }
  }

  /** An evicted version whose file the removal does not get at leaves it behind. */
  lemma UnremovedAfterPublish(va: Vault, ino: nat, v: Version, record: bool, stuck: set<string>, o: Version)
    requires VaultInv(va) && Fresh(va, ino, v) && ino in va.store && Evicted(va.store[ino]) == Some(o)
    requires o.hasData && !Reaches(ReachOf(va.attached, stuck), o.path)
    ensures Stray(Publish(va, ino, v, record, stuck), ino, o.ts)
  {
    var r := Publish(va, ino, v, record, stuck);
    assert o in va.store[ino] && VersionOk(va, ino, o);
    FreesOwnFile(va, ino, o);
    forall i, w | i in r.store && w in r.store[i] && w.hasData ensures w.path != o.path {
      PublishMembers(va, ino, v, record, stuck, i, w);
      if i == ino && w == v {
        NotTheSamePath(va, ino, o, v);
      } else if w.path == o.path {
        SamePath(va, i, w, ino, o);
        InsertDrops(va.store[ino], v, w);
      }
    }
  }

  lemma NotTheSamePath(va: Vault, ino: nat, o: Version, v: Version)
    requires VaultInv(va) && Fresh(va, ino, v) && ino in va.store && o in va.store[ino] && o.hasData && v.hasData
    ensures v.path != o.path
  {
    assert VersionOk(va, ino, o) && VersionOk(va, ino, v);
    if v.path == o.path {
      FreesOwnFile(va, ino, o);
      TargetIsOwn(va, ino, o, ino, v);
    }
  }

  lemma UnremovedAfterCapture(va: Vault, e: VaultEvent, ino: nat, v: Version)
    requires VaultInv(va) && Legal(va, e) && e.Capture? && Drops(va, e, ino, v)
    requires v.hasData && !Reaches(ReachIn(va, e), v.path)
    ensures Stray(VaultStep(va, e), ino, v.ts)
  {
    CopiedInv(va, e);
    PublishedIsFresh(va, e);
    UnremovedAfterPublish(Copied(va, e), ino, Published(va, e).value, e.cap.record, e.cap.stuck, v);
  }

  lemma UnremovedAfterCollection(va: Vault, e: VaultEvent, ino: nat, v: Version)
    requires VaultInv(va) && Legal(va, e) && e.Gc? && Drops(va, e, ino, v)
    requires v.hasData && !Reaches(ReachIn(va, e), v.path)
    ensures Stray(VaultStep(va, e), ino, v.ts)
  {
    var r := VaultStep(va, e);
    assert VersionOk(va, ino, v);
    forall i, w | i in r.store && w in r.store[i] && w.hasData ensures w.path != v.path {
      if w.path == v.path {
        SamePath(va, i, w, ino, v);
      }
    }
  }

  /** A step that strands a file leaves one that no version can lead to. */
  lemma StepStrands(va: Vault, e: VaultEvent) returns (ino: nat, ts: nat)
    requires VaultInv(va) && Legal(va, e) && Strands(va, e)
    ensures Stray(VaultStep(va, e), ino, ts)
  {
    if Unfilled(va, e) {
      UnfilledStrands(va, e);
      return e.ino, e.cap.ts;
    }
    var v;
    ino, v :| Drops(va, e, ino, v) && v.hasData && !Reaches(ReachIn(va, e), v.path);
    ts := v.ts;
    if e.Gc? {
      UnremovedAfterCollection(va, e, ino, v);
    } else {
      UnremovedAfterCapture(va, e, ino, v);
    }
  }

  /** Publishing another version, or one without data, does not give the file an owner, nor does it remove it. */
  lemma PublishStray(va: Vault, ino: nat, v: Version, record: bool, stuck: set<string>, p: string)
    requires VaultInv(va) && p in va.shadow && !Owned(va, p)
    requires v.hasData && v.path == p ==> ino !in va.store && !record
    ensures var r := Publish(va, ino, v, record, stuck); p in r.shadow && r.shadow[p] == va.shadow[p] && !Owned(r, p)
  {
    var r := Publish(va, ino, v, record, stuck);
    if Evicted(ListOf(va.store, ino)).Some? && (ino in va.store || record) {
      var o := Evicted(ListOf(va.store, ino)).value;
      assert o in va.store[ino];
      if o.hasData { FreesOwnFile(va, ino, o); }
    }
    forall i, w | i in r.store && w in r.store[i] && w.hasData ensures w.path != p {
      PublishMembers(va, ino, v, record, stuck, i, w);
    }
  }

  /** A capture copies into a file of its own. */
  lemma CopyAvoids(va: Vault, e: VaultEvent, ino: nat, ts: nat)
    requires VaultInv(va) && e.Capture? && e.cap.alloc && Legal(va, e) && Stray(va, ino, ts)
    ensures MakePath(va.root, ino, ts) != MakePath(va.root, e.ino, e.cap.ts)
    ensures var p := MakePath(va.root, ino, ts);
      p in Copied(va, e).shadow && Copied(va, e).shadow[p] == va.shadow[p] && !Owned(Copied(va, e), p)
  {
    ShortRootFits(va.root, ino, ts);
    ShortRootFits(va.root, e.ino, e.cap.ts);
    assert ts != e.cap.ts;
    if MakePath(va.root, ino, ts) == MakePath(va.root, e.ino, e.cap.ts) {
      PathsDistinct(va.root, ino, ts, e.ino, e.cap.ts);
    }
  }

  /** Nothing ever removes or changes such a file. */
  lemma StrayStays(va: Vault, e: VaultEvent, ino: nat, ts: nat)
    requires VaultInv(va) && Legal(va, e) && Stray(va, ino, ts)
    ensures Stray(VaultStep(va, e), ino, ts)
    ensures VaultStep(va, e).shadow[MakePath(va.root, ino, ts)] == va.shadow[MakePath(va.root, ino, ts)]
  {
    var p, r := MakePath(va.root, ino, ts), VaultStep(va, e);
    if e.Capture? && e.cap.alloc {
      CopiedInv(va, e);
      CopyAvoids(va, e, ino, ts);
      if Published(va, e).Some? {
        PublishStray(Copied(va, e), e.ino, Published(va, e).value, e.cap.record, e.cap.stuck, p);
      }
    } else if e.Gc? {
      CollectionSpares(va, Cutoff(e.now, e.window), p);
    }
  }

  lemma CollectionSpares(va: Vault, cutoff: nat, p: string)
    requires VaultInv(va) && !Owned(va, p)
    ensures !Doomed(va.store, va.root, cutoff, p)
  {
    if Doomed(va.store, va.root, cutoff, p) {
      var ino, v :| ino in va.store && v in va.store[ino] && v.ts < cutoff && v.hasData
                    && RemovalTarget(va.root, v.path) == p;
      FreesOwnFile(va, ino, v);
    }
  }

  // ---------------------------------------------------------------- whole runs

  /** Step `i` of the run strands a file. */
  ghost predicate StrandsAt(s: Fs, es: seq<Event>, i: nat)
    requires ValidRun(s, es)
  {
    i < |es| && Strands(At(s, es, i).vault, Recorded(At(s, es, i), es[i]))
  }

  /** The bytes of that file. */
  function FileOf(va: Vault, ino: nat, ts: nat): Option<Bytes> {
    var p := MakePath(va.root, ino, ts);
    if p in va.shadow then Some(va.shadow[p]) else None
  }

  lemma StrayStaysInStep(s: Fs, e: Event, ino: nat, ts: nat)
    requires FsInv(s) && Enabled(s, e) && Stray(s.vault, ino, ts)
    ensures Stray(Step(s, e).vault, ino, ts) && FileOf(Step(s, e).vault, ino, ts) == FileOf(s.vault, ino, ts)
  {
    StrayStays(s.vault, Recorded(s, e), ino, ts);
    StepInv(s, e);
  }

  lemma StrandedLast(s: Fs, es: seq<Event>) returns (ino: nat, ts: nat)
    requires FsInv(s) && ValidRun(s, es) && es != [] && StrandsAt(s, es, |es| - 1)
    ensures Stray(Run(s, es).vault, ino, ts)
  {
    var t := At(s, es, |es| - 1);
    RunInv(s, es[..|es| - 1]);
    ino, ts := StepStrands(t.vault, Recorded(t, es[|es| - 1]));
  }

  /** The file that a step strands stays through the rest of the run, unchanged, with no version that leads to it. */
  lemma {:induction false} StrandedForever(s: Fs, es: seq<Event>, i: nat) returns (ino: nat, ts: nat)
    requires FsInv(s) && ValidRun(s, es) && StrandsAt(s, es, i)
    ensures Stray(At(s, es, i + 1).vault, ino, ts) && Stray(Run(s, es).vault, ino, ts)
    ensures FileOf(Run(s, es).vault, ino, ts) == FileOf(At(s, es, i + 1).vault, ino, ts)
    decreases |es|
  {
    if i == |es| - 1 {
      ino, ts := StrandedLast(s, es);
      assert es[..i + 1] == es;
    } else {
      var front := es[..|es| - 1];
      AtFront(s, es, i);
      ino, ts := StrandedForever(s, front, i);
      assert front[..i + 1] == es[..i + 1];
      RunInv(s, front);
      StrayStaysInStep(Run(s, front), es[|es| - 1], ino, ts);
    }
  }

  lemma {:induction false} StaysTidy(s: Fs, es: seq<Event>)
    requires FsInv(s) && ValidRun(s, es) && Tidy(s.vault)
    requires forall i :: 0 <= i < |es| ==> !StrandsAt(s, es, i)
    ensures Tidy(Run(s, es).vault)
    decreases |es|
  {
    if es != [] {
      var front, n := es[..|es| - 1], |es| - 1;
      forall i | 0 <= i < |front| ensures !StrandsAt(s, front, i) {
        AtFront(s, es, i);
        assert !StrandsAt(s, es, i);
      }
      StaysTidy(s, front);
      RunInv(s, front);
      assert !StrandsAt(s, es, n);
      StepTidy(Run(s, front).vault, Recorded(Run(s, front), es[n]));
    }
  }

  /**
   * The shadow directory holds nothing but the files of listed versions exactly when no capture of the run created
   * its file and then failed to fill it or to record its version, and no eviction or collection freed a version with
   * data without getting at its file.
   */
  lemma TidyIff(s: Fs, es: seq<Event>)
    requires FsInv(s) && ValidRun(s, es) && Tidy(s.vault)
    ensures Tidy(Run(s, es).vault) <==> forall i :: 0 <= i < |es| ==> !StrandsAt(s, es, i)
  {
    if forall i :: 0 <= i < |es| ==> !StrandsAt(s, es, i) {
      StaysTidy(s, es);
    } else {
      var i :| 0 <= i < |es| && StrandsAt(s, es, i);
      var ino, ts := StrandedForever(s, es, i);
    }
  }
}
