/** An operation that is not interleaved with others, as the state machine takes it, is one of the interleavings. */
module Atomic {
  import opened CowTypes
  import opened ShadowNames
  import opened ShadowCopy
  import opened VersionLists
  import opened Vaults
  import opened LowerFs
  import opened CowFsModel
  import opened Threads

  /** The world and the vault agree, and everything allocated so far lies in the past. */
  ghost predicate Agrees(w: World, va: Vault) {
    && w.root == va.root && w.store == va.store && w.shadow == va.shadow
    && forall id :: id in w.known ==> id.ts <= va.clock
  }

  lemma AllocateStep(va: Vault, e: VaultEvent, w: World)
    requires WorldInv(w) && Agrees(w, va) && e.Capture? && Legal(va, e) && e.cap.alloc
    ensures var a := Allocate(Id(e.ino, e.cap.ts));
      && CanAct(w, a) && Agrees(Next(w, a), va.(clock := e.cap.ts)) && Next(w, a).limbo == w.limbo
  {
  }

  /** The copy as two steps: the file is created, then its bytes arrive. */
  lemma CopySteps(w: World, id: Id, b: Bytes) returns (acts: seq<Act>)
    requires id in w.flight
    ensures CanRun(w, acts)
    ensures RunAll(w, acts) == w.(flight := w.flight[id := true], shadow := w.shadow[PathOf(w, id) := b])
  {
    var w1 := Next(w, StartCopy(id));
    acts := [StartCopy(id)] + [CopyChunk(id, b)];
    RunOne(w, StartCopy(id));
    RunOne(w1, CopyChunk(id, b));
    RunConcat(w, [StartCopy(id)], [CopyChunk(id, b)]);
    assert [] + b == b;
  }

  /** Publishing and then freeing the version it pushed out. */
  lemma PublishSteps(va: Vault, w: World, id: Id, v: Version, record: bool, stuck: set<string>)
    returns (acts: seq<Act>)
    requires Agrees(w, va) && id in w.flight && id.ts == v.ts
    requires v.path == if v.hasData then PathOf(w, id) else ""
    requires v.hasData ==> w.flight[id] && PathOf(w, id) in w.shadow
    ensures CanRun(w, acts) && Agrees(RunAll(w, acts), Publish(va, id.ino, v, record, stuck))
    ensures RunAll(w, acts).limbo == w.limbo
  {
    var l := ListOf(va.store, id.ino);
    var put := Put(id, v.op, v.name, v.stat, v.hasData, record);
    RunOne(w, put);
    acts := [put];
    if (id.ino in va.store || record) && Evicted(l).Some? {
      var o, reach := Evicted(l).value, ReachOf(va.attached, stuck);
      var w1 := Next(w, put);
      assert w1.limbo == w.limbo + multiset{Loose(id.ino, o)};
      RunOne(w1, FreeOne(id.ino, o, reach));
      RunConcat(w, [put], [FreeOne(id.ino, o, reach)]);
      acts := [put] + [FreeOne(id.ino, o, reach)];
      assert w1.limbo - multiset{Loose(id.ino, o)} == w.limbo;
    } else {
      assert w.limbo + multiset{} == w.limbo;
    }
  }

  /** Allocation and copy. */
  lemma PrepareSteps(va: Vault, e: VaultEvent, w: World) returns (acts: seq<Act>)
    requires WorldInv(w) && Agrees(w, va) && e.Capture? && Legal(va, e) && e.cap.alloc
    ensures CanRun(w, acts) && Agrees(RunAll(w, acts), Copied(va, e)) && RunAll(w, acts).limbo == w.limbo
    ensures var (r, id) := (RunAll(w, acts), Id(e.ino, e.cap.ts));
      && id in r.flight
      && (e.withData && Copy(e.content, e.cap.copy).1.Some? ==> r.flight[id] && PathOf(r, id) in r.shadow)
  {
    var id := Id(e.ino, e.cap.ts);
    AllocateStep(va, e, w);
    RunOne(w, Allocate(id));
    acts := [Allocate(id)];
    if e.withData && Copy(e.content, e.cap.copy).1.Some? {
      var w1 := Next(w, Allocate(id));
      var copy := CopySteps(w1, id, Copy(e.content, e.cap.copy).1.value);
      RunConcat(w, acts, copy);
      acts := acts + copy;
    }
  }

  /** A capture of the state machine is a run of thread steps: same store, same shadow files, nothing left to free. */
  lemma CaptureIsARun(va: Vault, e: VaultEvent, w: World) returns (acts: seq<Act>)
    requires WorldInv(w) && Agrees(w, va) && e.Capture? && Legal(va, e)
    ensures CanRun(w, acts) && Agrees(RunAll(w, acts), VaultStep(va, e)) && RunAll(w, acts).limbo == w.limbo
  {
    acts := [];
    if e.cap.alloc {
      acts := PrepareSteps(va, e, w);
      var w1, id := RunAll(w, acts), Id(e.ino, e.cap.ts);
      var rest: seq<Act>;
      if Published(va, e).Some? {
        rest := PublishSteps(Copied(va, e), w1, id, Published(va, e).value, e.cap.record, e.cap.stuck);
      } else {
        RunOne(w1, Drop(id));
        rest := [Drop(id)];
      }
      RunConcat(w, acts, rest);
      acts := acts + rest;
    }
  }

  // ---------------------------------------------------------------- collections

  lemma {:induction false} ExpiredIff(l: seq<Version>, ino: nat, cutoff: nat, x: Loose)
    ensures x in Expired(l, ino, cutoff) <==> x.ino == ino && x.v in l && x.v.ts < cutoff
  {
    if l != [] {
      ExpiredIff(l[1..], ino, cutoff, x);
      assert x.v in l <==> x.v == l[0] || x.v in l[1..];
    }
  }

  /** The loose versions after detaching from the lists of `keys`. */
  ghost predicate LooseAre(limbo: multiset<Loose>, before: multiset<Loose>, m: Store, keys: set<nat>, cutoff: nat) {
    forall x: Loose ::
      x in limbo <==> x in before || (x.ino in m && x.ino in keys && x.v in m[x.ino] && x.v.ts < cutoff)
  }

  lemma DetachOne(w: World, k: nat, keys: set<nat>, cutoff: nat)
    requires k in w.store && k in keys
    ensures var t := Next(w, Detach(k, cutoff));
      && Progress(t.store, keys - {k}, cutoff) == Progress(w.store, keys, cutoff)
      && LooseAre(t.limbo, w.limbo, w.store, {k}, cutoff)
  {
    forall x: Loose
      ensures x in Expired(w.store[k], k, cutoff) <==> x.ino == k && x.v in w.store[k] && x.v.ts < cutoff
    {
      ExpiredIff(w.store[k], k, cutoff, x);
    }
  }

  lemma LooseJoin(a: multiset<Loose>, b: multiset<Loose>, c: multiset<Loose>,
                  m: Store, k: nat, keys: set<nat>, cutoff: nat)
    requires k in m && k in keys
    requires LooseAre(b, a, m, {k}, cutoff)
    requires LooseAre(c, b, m[k := Keep(m[k], cutoff)], keys - {k}, cutoff)
    ensures LooseAre(c, a, m, keys, cutoff)
  {
  }

  /** Detach the expired versions of one inode after the other. */
  lemma {:induction false} DetachRun(w: World, keys: set<nat>, cutoff: nat) returns (acts: seq<Act>)
    requires keys <= w.store.Keys
    ensures CanRun(w, acts)
    ensures RunAll(w, acts) == w.(store := Progress(w.store, keys, cutoff), limbo := RunAll(w, acts).limbo)
    ensures LooseAre(RunAll(w, acts).limbo, w.limbo, w.store, keys, cutoff)
    decreases |keys|
  {
    if keys == {} {
      acts := [];
      assert Progress(w.store, keys, cutoff) == w.store;
    } else {
      var k :| k in keys;
      var a := Detach(k, cutoff);
      var t := Next(w, a);
      DetachOne(w, k, keys, cutoff);
      var rest := DetachRun(t, keys - {k}, cutoff);
      RunOne(w, a);
      RunConcat(w, [a], rest);
      LooseJoin(w.limbo, t.limbo, RunAll(t, rest).limbo, w.store, k, keys, cutoff);
      acts := [a] + rest;
    }
  }

  ghost predicate LooseFile(limbo: multiset<Loose>, root: string, p: string) {
    exists x: Loose :: x in limbo && x.v.hasData && RemovalTarget(root, x.v.path) == p
  }

  /** The shadow directory when everything loose has been freed. */
  ghost function Freed(files: map<string, Bytes>, root: string, limbo: multiset<Loose>, reach: Reach)
    : map<string, Bytes>
  {
    map p | p in files && !(LooseFile(limbo, root, p) && Reaches(reach, p)) :: files[p]
  }

  lemma FreedStep(files: map<string, Bytes>, root: string, limbo: multiset<Loose>, x: Loose, reach: Reach)
    requires x in limbo
    ensures Freed(Free(files, root, x.v, reach), root, limbo - multiset{x}, reach) == Freed(files, root, limbo, reach)
  {
    var rest := limbo - multiset{x};
    forall p ensures LooseFile(limbo, root, p) <==>
      (x.v.hasData && RemovalTarget(root, x.v.path) == p) || LooseFile(rest, root, p)
    {
      assert forall y :: y in limbo <==> y == x || y in rest;
    }
  }

  /** Free everything that is detached. */
  lemma {:induction false} FreeRun(w: World, reach: Reach) returns (acts: seq<Act>)
    ensures CanRun(w, acts)
    ensures var r := RunAll(w, acts);
      r == w.(limbo := multiset{}, freed := r.freed, shadow := Freed(w.shadow, w.root, w.limbo, reach))
    decreases |w.limbo|
  {
    if w.limbo == multiset{} {
      acts := [];
      assert Freed(w.shadow, w.root, w.limbo, reach) == w.shadow;
    } else {
      var x := Pick(w.limbo);
      var a := FreeOne(x.ino, x.v, reach);
      assert x == Loose(x.ino, x.v);
      FreedStep(w.shadow, w.root, w.limbo, x, reach);
      var rest := FreeRun(Next(w, a), reach);
      RunOne(w, a);
      RunConcat(w, [a], rest);
      acts := [a] + rest;
    }
  }

  /** A loose file is doomed: its version was on a list and expired. */
  lemma LooseIsDoomed(root: string, limbo: multiset<Loose>, m: Store, cutoff: nat, p: string)
    requires LooseAre(limbo, multiset{}, m, m.Keys, cutoff) && LooseFile(limbo, root, p)
    ensures Doomed(m, root, cutoff, p)
  {
    var x: Loose :| x in limbo && x.v.hasData && RemovalTarget(root, x.v.path) == p;
    assert x.ino in m && x.v in m[x.ino] && x.v.ts < cutoff;
  }

  lemma DoomedIsLoose(root: string, limbo: multiset<Loose>, m: Store, cutoff: nat, p: string)
    requires LooseAre(limbo, multiset{}, m, m.Keys, cutoff) && Doomed(m, root, cutoff, p)
    ensures LooseFile(limbo, root, p)
  {
    var ino, v :| ino in m && v in m[ino] && v.ts < cutoff && v.hasData && RemovalTarget(root, v.path) == p;
    var x := Loose(ino, v);
    assert x in limbo;
  }

  lemma FreedIsSwept(files: map<string, Bytes>, root: string, limbo: multiset<Loose>, m: Store, cutoff: nat,
                     reach: Reach)
    requires LooseAre(limbo, multiset{}, m, m.Keys, cutoff)
    ensures Freed(files, root, limbo, reach) == Sweep(files, m, root, cutoff, reach)
  {
    forall p ensures LooseFile(limbo, root, p) <==> Doomed(m, root, cutoff, p) {
      if LooseFile(limbo, root, p) {
        LooseIsDoomed(root, limbo, m, cutoff, p);
      }
      if Doomed(m, root, cutoff, p) {
        DoomedIsLoose(root, limbo, m, cutoff, p);
      }
    }
  }

  /** A collection of the state machine is a run of thread steps: detach inode by inode, then free one by one. */
  lemma CollectionIsARun(va: Vault, now: nat, window: nat, stuck: set<string>, w: World) returns (acts: seq<Act>)
    requires Agrees(w, va) && Legal(va, Gc(now, window, stuck)) && w.limbo == multiset{}
    ensures CanRun(w, acts) && RunAll(w, acts).limbo == multiset{}
    ensures Agrees(RunAll(w, acts), VaultStep(va, Gc(now, window, stuck)))
  {
    var cutoff, reach := Cutoff(now, window), ReachOf(va.attached, stuck);
    var first := DetachRun(w, w.store.Keys, cutoff);
    var mid := RunAll(w, first);
    var second := FreeRun(mid, reach);
    RunConcat(w, first, second);
    acts := first + second;
    FreedIsSwept(w.shadow, va.root, mid.limbo, w.store, cutoff, reach);
    assert Progress(w.store, w.store.Keys, cutoff) == Collect(va.store, cutoff);
  }

  // ---------------------------------------------------------------- whole runs

  /** Every step of the state machine is a run of thread steps, on the part of the state that the threads share. */
  lemma StepIsARun(va: Vault, e: VaultEvent, w: World) returns (acts: seq<Act>)
    requires WorldInv(w) && Agrees(w, va) && Legal(va, e) && w.limbo == multiset{}
    ensures CanRun(w, acts) && Agrees(RunAll(w, acts), VaultStep(va, e)) && RunAll(w, acts).limbo == multiset{}
  {
    match e
    case Capture(_, _, _, _, _, _, _) => acts := CaptureIsARun(va, e, w);
    case Gc(now, window, stuck) => acts := CollectionIsARun(va, now, window, stuck, w);
    case _ => acts := [];
  }

  lemma {:induction false} RunContinues(s: Fs, es: seq<Event>, w: World) returns (acts: seq<Act>)
    requires WorldInv(w) && Agrees(w, s.vault) && w.limbo == multiset{} && ValidRun(s, es)
    ensures CanRun(w, acts) && WorldInv(RunAll(w, acts))
    ensures Agrees(RunAll(w, acts), Run(s, es).vault) && RunAll(w, acts).limbo == multiset{}
    decreases |es|
  {
    acts := [];
    if es != [] {
      var front, last := es[..|es| - 1], es[|es| - 1];
      var t := Run(s, front);
      acts := RunContinues(s, front, w);
      var rest := StepIsARun(t.vault, Recorded(t, last), RunAll(w, acts));
      RunConcat(w, acts, rest);
      RunAllInv(RunAll(w, acts), rest);
      acts := acts + rest;
    }
  }

  /**
   * Every run of the state machine from a first mount is a run of the threads from the loading of the module, with the
   * same store and the same shadow files at the end: what holds under every interleaving holds of it.
   */
  lemma RunIsARun(root: string, lo: Lower, err: int, es: seq<Event>) returns (acts: seq<Act>)
    requires ShortRoot(root) && ValidRun(Mounted(root, lo, err), es)
    ensures CanRun(NewWorld(root), acts) && WorldInv(RunAll(NewWorld(root), acts))
    ensures var (w, n) := (RunAll(NewWorld(root), acts), Run(Mounted(root, lo, err), es).vault);
      w.store == n.store && w.shadow == n.shadow && w.limbo == multiset{}
  {
    NewWorldInv(root);
    acts := RunContinues(Mounted(root, lo, err), es, NewWorld(root));
  }
}
