/**
 * Threads interleaved: allocation, the chunks of a copy, publishing under the lock, detaching under the lock and
 * freeing outside it are separate steps, taken in any order by any number of threads.
 */
module Threads {
  import opened CowTypes
  import opened ShadowNames
  import opened VersionLists
  import opened Vaults

  /** A version is known by its inode and its timestamp. */
  datatype Id = Id(ino: nat, ts: nat)

  /** A version on its way from a list to `cowfs_version_free`. */
  datatype Loose = Loose(ino: nat, v: Version)

  /**
   * `known` are the versions ever allocated. `flight` holds allocated versions that are not published yet, each with
   * the flag that its copy was started; `limbo` holds detached ones, `freed` and `leaked` count what became of the
   * rest; `sealed` remembers the shadow file of a version at the moment it was published.
   */
  datatype World = World(
    root: string,
    known: set<Id>,
    flight: map<Id, bool>,
    store: Store,
    limbo: multiset<Loose>,
    freed: multiset<Id>,
    leaked: multiset<Id>,
    shadow: map<string, Bytes>,
    sealed: map<Id, Bytes>)

  datatype Act =
    | Allocate(id: Id)
    | StartCopy(id: Id)
    | CopyChunk(id: Id, chunk: Bytes)
    | Put(id: Id, op: Op, name: string, stat: Stat, hasData: bool, record: bool)
    | Drop(id: Id)
    | Detach(ino: nat, cutoff: nat)
    | DetachAll(ino: nat)
    | FreeOne(ino: nat, v: Version, reach: Reach)

  function PathOf(w: World, id: Id): string {
    MakePath(w.root, id.ino, id.ts)
  }

  /** The expired versions of a list, as `cowfs_version_gc` collects them. */
  function Expired(l: seq<Version>, ino: nat, cutoff: nat): multiset<Loose> {
    if l == [] then multiset{}
    else Expired(l[1..], ino, cutoff) + if l[0].ts < cutoff then multiset{Loose(ino, l[0])} else multiset{}
  }

  // ---------------------------------------------------------------- steps

  predicate CanAct(w: World, a: Act) {
    match a
    case Allocate(id) => id !in w.known && 0 < id.ts < U64_RANGE && id.ino < U64_RANGE
    case StartCopy(id) => id in w.flight
    case CopyChunk(id, _) => id in w.flight && w.flight[id] && PathOf(w, id) in w.shadow
    case Put(id, _, _, _, hasData, _) => id in w.flight && (hasData ==> w.flight[id] && PathOf(w, id) in w.shadow)
    case Drop(id) => id in w.flight
    case Detach(ino, _) => ino in w.store
    case DetachAll(ino) => ino in w.store
    case FreeOne(ino, v, _) => Loose(ino, v) in w.limbo
  }

  function Next(w: World, a: Act): World
    requires CanAct(w, a)
  {
    match a
    case Allocate(id) => w.(known := w.known + {id}, flight := w.flight[id := false])
    case StartCopy(id) => w.(flight := w.flight[id := true], shadow := w.shadow[PathOf(w, id) := []])
    case CopyChunk(id, chunk) => w.(shadow := w.shadow[PathOf(w, id) := w.shadow[PathOf(w, id)] + chunk])
    case Put(id, op, name, stat, hasData, record) =>
      var landed := w.(flight := w.flight - {id});
      if id.ino !in w.store && !record then landed.(leaked := w.leaked + multiset{id})
      else
        var v := Version(id.ts, op, if hasData then PathOf(w, id) else "", name, stat, hasData);
        var l := ListOf(w.store, id.ino);
        landed.(
          store := w.store[id.ino := Insert(l, v)],
          limbo := w.limbo + (match Evicted(l) case None => multiset{} case Some(o) => multiset{Loose(id.ino, o)}),
          sealed := if hasData then w.sealed[id := w.shadow[PathOf(w, id)]] else w.sealed)
    case Drop(id) => w.(flight := w.flight - {id}, freed := w.freed + multiset{id})
    case Detach(ino, cutoff) =>
      w.(store := w.store[ino := Keep(w.store[ino], cutoff)], limbo := w.limbo + Expired(w.store[ino], ino, cutoff))
    case DetachAll(ino) =>
      w.(store := w.store - {ino}, limbo := w.limbo + Expired(w.store[ino], ino, U64_RANGE))
    case FreeOne(ino, v, reach) =>
      w.(limbo := w.limbo - multiset{Loose(ino, v)},
         freed := w.freed + multiset{Id(ino, v.ts)},
         shadow := Free(w.shadow, w.root, v, reach))
  }

  // ---------------------------------------------------------------- who owns a version

  /** How often a timestamp occurs in a list. */
  function Count(l: seq<Version>, ts: nat): nat {
    if l == [] then 0 else Count(l[1..], ts) + if l[0].ts == ts then 1 else 0
  }

  /** How many loose versions carry this name. */
  ghost function LooseCount(m: multiset<Loose>, id: Id): nat
    decreases |m|
  {
    if m == multiset{} then 0
    else
      var x := Pick(m);
      LooseCount(m - multiset{x}, id) + if Id(x.ino, x.v.ts) == id then 1 else 0
  }

  ghost function Pick(m: multiset<Loose>): (x: Loose)
    requires m != multiset{}
    ensures x in m
  {
    var x :| x in m;
    x
  }

  /** The number of places that hold the version. */
  ghost function Holders(w: World, id: Id): nat {
    (if id in w.flight then 1 else 0) + Count(ListOf(w.store, id.ino), id.ts) + LooseCount(w.limbo, id)
    + w.freed[id] + w.leaked[id]
  }

  /** Every allocated version is held in exactly one place, every other one nowhere. */
  ghost predicate Conserved(w: World) {
    forall id :: Holders(w, id) == if id in w.known then 1 else 0
  }

  lemma {:induction false} LooseCountAdd(m: multiset<Loose>, x: Loose, id: Id)
    ensures LooseCount(m + multiset{x}, id) == LooseCount(m, id) + if Id(x.ino, x.v.ts) == id then 1 else 0
    decreases |m|
  {
    var all := m + multiset{x};
    var y := Pick(all);
    if y == x {
      assert all - multiset{x} == m;
    } else {
      assert y in m;
      var rest := m - multiset{y};
      assert all - multiset{y} == rest + multiset{x};
      LooseCountAdd(rest, x, id);
      assert rest + multiset{y} == m;
      LooseCountAdd(rest, y, id);
    }
  }

  lemma LooseCountRemove(m: multiset<Loose>, x: Loose, id: Id)
    requires x in m
    ensures LooseCount(m, id) == LooseCount(m - multiset{x}, id) + if Id(x.ino, x.v.ts) == id then 1 else 0
  {
    assert m - multiset{x} + multiset{x} == m;
    LooseCountAdd(m - multiset{x}, x, id);
  }

  lemma {:induction false} CountConcat(a: seq<Version>, b: seq<Version>, ts: nat)
    ensures Count(a + b, ts) == Count(a, ts) + Count(b, ts)
  {
    if a == [] {
      assert a + b == b;
    } else {
      assert (a + b)[1..] == a[1..] + b;
      CountConcat(a[1..], b, ts);
    }
  }

  /** Inserting adds one version and hands over the one that it pushes out. */
  lemma InsertCounts(l: seq<Version>, v: Version, ts: nat)
    ensures Count(Insert(l, v), ts) + (match Evicted(l) case None => 0 case Some(o) => if o.ts == ts then 1 else 0)
         == Count(l, ts) + if v.ts == ts then 1 else 0
  {
    assert Insert(l, v)[1..] == if |l| >= MAX_VERSIONS then l[..|l| - 1] else l;
    if |l| >= MAX_VERSIONS {
      var last := [l[|l| - 1]];
      assert l == l[..|l| - 1] + last;
      CountConcat(l[..|l| - 1], last, ts);
      assert last[1..] == [];
      assert Count(last, ts) == if l[|l| - 1].ts == ts then 1 else 0;
    }
  }

  /** A detached version moves from the list to the loose ones; the others stay. */
  lemma {:induction false} DetachCounts(m: multiset<Loose>, l: seq<Version>, ino: nat, cutoff: nat, id: Id)
    ensures LooseCount(m + Expired(l, ino, cutoff), id) + (if id.ino == ino then Count(Keep(l, cutoff), id.ts) else 0)
         == LooseCount(m, id) + if id.ino == ino then Count(l, id.ts) else 0
  {
    if l == [] {
      assert m + multiset{} == m;
    } else {
      DetachCounts(m, l[1..], ino, cutoff, id);
      var rest := m + Expired(l[1..], ino, cutoff);
      if l[0].ts < cutoff {
        assert m + Expired(l, ino, cutoff) == rest + multiset{Loose(ino, l[0])};
        LooseCountAdd(rest, Loose(ino, l[0]), id);
      } else {
        assert m + Expired(l, ino, cutoff) == rest;
        assert Keep(l, cutoff)[1..] == Keep(l[1..], cutoff);
      }
    }
  }

  /** Publishing into a list with room. */
  lemma PutInRoom(w: World, a: Act, id: Id)
    requires CanAct(w, a) && a.Put? && (a.id.ino in w.store || a.record)
    requires Evicted(ListOf(w.store, a.id.ino)).None?
    ensures Holders(Next(w, a), id) == Holders(w, id)
  {
    var v := Version(a.id.ts, a.op, if a.hasData then PathOf(w, a.id) else "", a.name, a.stat, a.hasData);
    InsertCounts(ListOf(w.store, a.id.ino), v, id.ts);
    assert w.limbo + multiset{} == w.limbo;
  }

  /** Publishing into a full list. */
  lemma PutInFull(w: World, a: Act, id: Id)
    requires CanAct(w, a) && a.Put? && (a.id.ino in w.store || a.record)
    requires Evicted(ListOf(w.store, a.id.ino)).Some?
    ensures Holders(Next(w, a), id) == Holders(w, id)
  {
    var l := ListOf(w.store, a.id.ino);
    var v := Version(a.id.ts, a.op, if a.hasData then PathOf(w, a.id) else "", a.name, a.stat, a.hasData);
    InsertCounts(l, v, id.ts);
    LooseCountAdd(w.limbo, Loose(a.id.ino, Evicted(l).value), id);
  }

  lemma PutHolders(w: World, a: Act, id: Id)
    requires CanAct(w, a) && a.Put?
    ensures Holders(Next(w, a), id) == Holders(w, id)
  {
    if a.id.ino in w.store || a.record {
      if Evicted(ListOf(w.store, a.id.ino)).Some? {
        PutInFull(w, a, id);
      } else {
        PutInRoom(w, a, id);
      }
    }
  }

  lemma DetachHolders(w: World, a: Act, id: Id)
    requires CanAct(w, a) && a.Detach?
    ensures Holders(Next(w, a), id) == Holders(w, id)
  {
    DetachCounts(w.limbo, w.store[a.ino], a.ino, a.cutoff, id);
  }

  lemma DetachAllHolders(w: World, a: Act, id: Id)
    requires CanAct(w, a) && a.DetachAll?
    requires forall v :: v in w.store[a.ino] ==> v.ts < U64_RANGE
    ensures Holders(Next(w, a), id) == Holders(w, id)
  {
    DetachCounts(w.limbo, w.store[a.ino], a.ino, U64_RANGE, id);
    KeepNone(w.store[a.ino], U64_RANGE);
    DetachAllParts(w, a, id.ino);
  }

  lemma DetachAllParts(w: World, a: Act, ino: nat)
    requires CanAct(w, a) && a.DetachAll?
    ensures ListOf(Next(w, a).store, ino) == if ino == a.ino then [] else ListOf(w.store, ino)
    ensures Next(w, a).limbo == w.limbo + Expired(w.store[a.ino], a.ino, U64_RANGE)
    ensures Next(w, a).flight == w.flight && Next(w, a).freed == w.freed && Next(w, a).leaked == w.leaked
  {
  }

  lemma FreeHolders(w: World, a: Act, id: Id)
    requires CanAct(w, a) && a.FreeOne?
    ensures Holders(Next(w, a), id) == Holders(w, id)
  {
    LooseCountRemove(w.limbo, Loose(a.ino, a.v), id);
  }

  /** A step moves versions from one holder to another; only an allocation adds one. */
  lemma StepHolders(w: World, a: Act, id: Id)
    requires CanAct(w, a)
    requires forall ino, v :: ino in w.store && v in w.store[ino] ==> v.ts < U64_RANGE
    requires a.Allocate? ==> a.id !in w.flight
    ensures Holders(Next(w, a), id) == Holders(w, id) + if a.Allocate? && a.id == id then 1 else 0
  {
    match a
    case Put(_, _, _, _, _, _) => PutHolders(w, a, id);
    case Detach(_, _) => DetachHolders(w, a, id);
    case DetachAll(_) => DetachAllHolders(w, a, id);
    case FreeOne(_, _, _) => FreeHolders(w, a, id);
    case Allocate(_) =>
    case StartCopy(_) =>
    case CopyChunk(_, _) =>
    case Drop(_) =>
  }

  /** A version leaks only when it cannot be added, and is freed only from flight or after it was detached. */
  lemma EndsOnlyBy(w: World, a: Act, id: Id)
    requires CanAct(w, a)
    ensures Next(w, a).leaked[id] == w.leaked[id]
         + if a.Put? && a.id == id && id.ino !in w.store && !a.record then 1 else 0
    ensures Next(w, a).freed[id] == w.freed[id]
         + if a == Drop(id) || (a.FreeOne? && Id(a.ino, a.v.ts) == id) then 1 else 0
  {
  }

  // ---------------------------------------------------------------- the invariant

  /** The shadow file of a version with data is there under its own name, as it was when the version was published. */
  ghost predicate Backed(w: World, ino: nat, v: Version) {
    v.hasData ==>
      && v.path == PathOf(w, Id(ino, v.ts))
      && v.path in w.shadow && Id(ino, v.ts) in w.sealed && w.shadow[v.path] == w.sealed[Id(ino, v.ts)]
  }

  ghost predicate WorldInv(w: World) {
    && ShortRoot(w.root)
    && (forall id :: id in w.known ==> 0 < id.ts < U64_RANGE && id.ino < U64_RANGE)
    && (forall id :: id in w.flight && w.flight[id] ==> PathOf(w, id) in w.shadow)
    && (forall ino, v :: ino in w.store && v in w.store[ino] ==> Backed(w, ino, v))
    && (forall x :: x in w.limbo ==> Backed(w, x.ino, x.v))
    && Conserved(w)
  }

  lemma {:induction false} ListedCounts(l: seq<Version>, v: Version)
    requires v in l
    ensures Count(l, v.ts) >= 1
  {
    if l[0] != v {
      assert v in l[1..];
      ListedCounts(l[1..], v);
    }
  }

  /** A listed version is known, and is held nowhere else. */
  lemma ListedOnly(w: World, ino: nat, v: Version)
    requires Conserved(w) && ino in w.store && v in w.store[ino]
    ensures var id := Id(ino, v.ts);
      && id in w.known && id !in w.flight && w.freed[id] == 0 && w.leaked[id] == 0
      && Count(w.store[ino], v.ts) == 1 && LooseCount(w.limbo, id) == 0
  {
    var id := Id(ino, v.ts);
    ListedCounts(w.store[ino], v);
    assert Holders(w, id) >= Count(w.store[ino], v.ts);
  }

  /** So is a detached one. */
  lemma LooseOnly(w: World, ino: nat, v: Version)
    requires Conserved(w) && Loose(ino, v) in w.limbo
    ensures var id := Id(ino, v.ts);
      && id in w.known && id !in w.flight && w.freed[id] == 0 && w.leaked[id] == 0
      && Count(ListOf(w.store, ino), v.ts) == 0
      && LooseCount(w.limbo - multiset{Loose(ino, v)}, id) == 0
  {
    var id := Id(ino, v.ts);
    LooseCountRemove(w.limbo, Loose(ino, v), id);
    assert Holders(w, id) >= LooseCount(w.limbo, id);
  }

  lemma PathsDiffer(w: World, a: Id, b: Id)
    requires ShortRoot(w.root) && a.ino < U64_RANGE && a.ts < U64_RANGE && b.ino < U64_RANGE && b.ts < U64_RANGE
    requires a != b
    ensures PathOf(w, a) != PathOf(w, b)
    ensures RemovalTarget(w.root, PathOf(w, a)) == PathOf(w, a)
  {
    ShortRootFits(w.root, a.ino, a.ts);
    ShortRootFits(w.root, b.ino, b.ts);
    RemovalHitsTheCopy(w.root, a.ino, a.ts);
    if PathOf(w, a) == PathOf(w, b) {
      PathsDistinct(w.root, a.ino, a.ts, b.ino, b.ts);
    }
  }

  /** The version that a step is about; only its shadow file can change. */
  function Subject(a: Act): Option<Id> {
    match a
    case StartCopy(id) => Some(id)
    case CopyChunk(id, _) => Some(id)
    case FreeOne(ino, v, _) => Some(Id(ino, v.ts))
    case _ => None
  }

  lemma OtherFilesStay(w: World, a: Act, id: Id)
    requires WorldInv(w) && CanAct(w, a) && id in w.known && Subject(a) != Some(id)
    requires Subject(a).Some? ==> Subject(a).value in w.known
    ensures PathOf(w, id) in Next(w, a).shadow <==> PathOf(w, id) in w.shadow
    ensures PathOf(w, id) in w.shadow ==> Next(w, a).shadow[PathOf(w, id)] == w.shadow[PathOf(w, id)]
  {
    if Subject(a).Some? {
      PathsDiffer(w, Subject(a).value, id);
      if a.FreeOne? {
        assert Backed(w, a.ino, a.v);
      }
    }
  }

  lemma SubjectKnown(w: World, a: Act)
    requires WorldInv(w) && CanAct(w, a) && Subject(a).Some?
    ensures Subject(a).value in w.known
    ensures !a.FreeOne? ==> Subject(a).value in w.flight
  {
    if a.FreeOne? {
      LooseOnly(w, a.ino, a.v);
    } else {
      assert Holders(w, Subject(a).value) >= 1;
    }
  }

  /** A version that is neither in flight nor being freed stays backed. */
  lemma BackedStays(w: World, a: Act, ino: nat, v: Version)
    requires WorldInv(w) && CanAct(w, a) && Backed(w, ino, v)
    requires Id(ino, v.ts) in w.known && Id(ino, v.ts) !in w.flight
    requires Subject(a) != Some(Id(ino, v.ts))
    ensures Backed(Next(w, a), ino, v)
  {
    if Subject(a).Some? {
      SubjectKnown(w, a);
    }
    OtherFilesStay(w, a, Id(ino, v.ts));
    assert PathOf(Next(w, a), Id(ino, v.ts)) == PathOf(w, Id(ino, v.ts));
  }

  lemma {:induction false} ExpiredFromList(l: seq<Version>, ino: nat, cutoff: nat, x: Loose)
    requires x in Expired(l, ino, cutoff)
    ensures x.ino == ino && x.v in l && x.v.ts < cutoff
  {
    if x !in Expired(l[1..], ino, cutoff) {
      assert x == Loose(ino, l[0]);
    } else {
      ExpiredFromList(l[1..], ino, cutoff, x);
    }
  }

  // ---------------------------------------------------------------- every step keeps it

  lemma ActConserves(w: World, a: Act)
    requires WorldInv(w) && CanAct(w, a)
    ensures Conserved(Next(w, a))
  {
    forall ino, v | ino in w.store && v in w.store[ino] ensures v.ts < U64_RANGE {
      ListedOnly(w, ino, v);
      assert Id(ino, v.ts) in w.known;
    }
    if a.Allocate? {
      assert Holders(w, a.id) == 0;
    }
    forall id ensures Holders(Next(w, a), id) == if id in Next(w, a).known then 1 else 0 {
      assert Holders(w, id) == if id in w.known then 1 else 0;
      StepHolders(w, a, id);
    }
  }

  /** Where the versions on a list after a step come from. */
  lemma ListedAfter(w: World, a: Act, ino: nat, v: Version)
    requires CanAct(w, a) && ino in Next(w, a).store && v in Next(w, a).store[ino]
    ensures || (ino in w.store && v in w.store[ino])
            || (a.Put? && a.id == Id(ino, v.ts) && v.hasData == a.hasData && (v.hasData ==> v.path == PathOf(w, a.id)))
  {
  }

  /** No step works on the shadow file of a listed version. */
  lemma SubjectNotListed(w: World, a: Act, ino: nat, v: Version)
    requires WorldInv(w) && CanAct(w, a) && ino in w.store && v in w.store[ino]
    ensures Subject(a) != Some(Id(ino, v.ts))
  {
    if a.FreeOne? {
      LooseOnly(w, a.ino, a.v);
    } else if Subject(a).Some? {
      SubjectKnown(w, a);
    }
    ListedOnly(w, ino, v);
  }

  /** Nor of a detached one, except to free it. */
  lemma SubjectNotLoose(w: World, a: Act, x: Loose)
    requires WorldInv(w) && CanAct(w, a) && x in w.limbo
    requires a.FreeOne? ==> x in w.limbo - multiset{Loose(a.ino, a.v)}
    ensures Subject(a) != Some(Id(x.ino, x.v.ts))
  {
    if a.FreeOne? {
      LooseOnly(w, a.ino, a.v);
      LooseCountRemove(w.limbo - multiset{Loose(a.ino, a.v)}, x, Id(x.ino, x.v.ts));
    } else if Subject(a).Some? {
      SubjectKnown(w, a);
    }
    LooseOnly(w, x.ino, x.v);
  }

  lemma ListedBacked(w: World, a: Act, ino: nat, v: Version)
    requires WorldInv(w) && CanAct(w, a) && ino in Next(w, a).store && v in Next(w, a).store[ino]
    ensures Backed(Next(w, a), ino, v)
  {
    ListedAfter(w, a, ino, v);
    if ino in w.store && v in w.store[ino] {
      SubjectNotListed(w, a, ino, v);
      ListedOnly(w, ino, v);
      BackedStays(w, a, ino, v);
    }
  }

  lemma LooseAfter(w: World, a: Act, x: Loose)
    requires CanAct(w, a) && x in Next(w, a).limbo
    ensures || (x in w.limbo && (a.FreeOne? ==> x in w.limbo - multiset{Loose(a.ino, a.v)}))
            || (x.ino in w.store && x.v in w.store[x.ino])
  {
    if a.Detach? && x !in w.limbo {
      ExpiredFromList(w.store[a.ino], a.ino, a.cutoff, x);
    } else if a.DetachAll? && x !in w.limbo {
      ExpiredFromList(w.store[a.ino], a.ino, U64_RANGE, x);
    }
  }

  lemma LooseBacked(w: World, a: Act, x: Loose)
    requires WorldInv(w) && CanAct(w, a) && x in Next(w, a).limbo
    ensures Backed(Next(w, a), x.ino, x.v)
  {
    LooseAfter(w, a, x);
    if x in w.limbo && (a.FreeOne? ==> x in w.limbo - multiset{Loose(a.ino, a.v)}) {
      SubjectNotLoose(w, a, x);
      LooseOnly(w, x.ino, x.v);
      BackedStays(w, a, x.ino, x.v);
    } else {
      SubjectNotListed(w, a, x.ino, x.v);
      ListedOnly(w, x.ino, x.v);
      BackedStays(w, a, x.ino, x.v);
    }
  }

  lemma FlightCopies(w: World, a: Act, id: Id)
    requires WorldInv(w) && CanAct(w, a) && id in Next(w, a).flight && Next(w, a).flight[id]
    ensures PathOf(w, id) in Next(w, a).shadow
  {
    if Subject(a) == Some(id) && a.FreeOne? {
      LooseOnly(w, a.ino, a.v);
      assert false;
    } else if Subject(a) != Some(id) {
      StillCopying(w, a, id);
    }
  }

  /** A copy that the step is not about goes on. */
  lemma StillCopying(w: World, a: Act, id: Id)
    requires WorldInv(w) && CanAct(w, a) && id in w.flight && w.flight[id] && Subject(a) != Some(id)
    ensures PathOf(w, id) in Next(w, a).shadow
  {
    assert Holders(w, id) >= 1;
    if Subject(a).Some? { SubjectKnown(w, a); }
    OtherFilesStay(w, a, id);
  }

  /** Every step of every thread keeps the invariant: versions are conserved and published shadows are in place. */
  lemma ActInv(w: World, a: Act)
    requires WorldInv(w) && CanAct(w, a)
    ensures WorldInv(Next(w, a))
  {
    var r := Next(w, a);
    ActConserves(w, a);
    forall ino, v | ino in r.store && v in r.store[ino] ensures Backed(r, ino, v) { ListedBacked(w, a, ino, v); }
    forall x | x in r.limbo ensures Backed(r, x.ino, x.v) { LooseBacked(w, a, x); }
    forall id | id in r.flight && r.flight[id] ensures PathOf(r, id) in r.shadow { FlightCopies(w, a, id); }
  }

  /** A shadow file is removed only by the freeing of its version, after that version has left every list. */
  lemma RemovedOnlyAfterLeaving(w: World, a: Act, id: Id)
    requires WorldInv(w) && CanAct(w, a) && id in w.known
    requires PathOf(w, id) in w.shadow && PathOf(w, id) !in Next(w, a).shadow
    ensures a.FreeOne? && Id(a.ino, a.v.ts) == id && a.v.hasData
    ensures Count(ListOf(w.store, id.ino), id.ts) == 0 && id !in w.flight && w.freed[id] == 0
  {
    if Subject(a).Some? {
      SubjectKnown(w, a);
    }
    if Subject(a) != Some(id) {
      OtherFilesStay(w, a, id);
      assert false;
    }
    LooseOnly(w, a.ino, a.v);
  }

  // ---------------------------------------------------------------- whole runs

  predicate CanRun(w: World, acts: seq<Act>)
    decreases |acts|
  {
    acts == [] || (CanAct(w, acts[0]) && CanRun(Next(w, acts[0]), acts[1..]))
  }

  function RunAll(w: World, acts: seq<Act>): World
    requires CanRun(w, acts)
    decreases |acts|
  {
    if acts == [] then w else RunAll(Next(w, acts[0]), acts[1..])
  }

  /** The world after loading the module. */
  function NewWorld(root: string): World {
    World(root, {}, map[], map[], multiset{}, multiset{}, multiset{}, map[], map[])
  }

  lemma NewWorldInv(root: string)
    requires ShortRoot(root)
    ensures WorldInv(NewWorld(root))
  {
    forall id ensures Holders(NewWorld(root), id) == 0 {
    }
  }

  lemma {:induction false} RunConcat(w: World, first: seq<Act>, rest: seq<Act>)
    requires CanRun(w, first) && CanRun(RunAll(w, first), rest)
    ensures CanRun(w, first + rest) && RunAll(w, first + rest) == RunAll(RunAll(w, first), rest)
    decreases |first|
  {
    if first == [] {
      assert first + rest == rest;
    } else {
      assert (first + rest)[1..] == first[1..] + rest;
      RunConcat(Next(w, first[0]), first[1..], rest);
    }
  }

  lemma RunOne(w: World, a: Act)
    requires CanAct(w, a)
    ensures CanRun(w, [a]) && RunAll(w, [a]) == Next(w, a)
  {
    assert [a][1..] == [];
  }

  lemma {:induction false} RunAllInv(w: World, acts: seq<Act>)
    requires WorldInv(w) && CanRun(w, acts)
    ensures WorldInv(RunAll(w, acts))
    decreases |acts|
  {
    if acts != [] {
      ActInv(w, acts[0]);
      RunAllInv(Next(w, acts[0]), acts[1..]);
    }
  }

  /** A version that has been published once: on a list, detached, or freed, and in one of these places only. */
  ghost predicate Settled(w: World, id: Id) {
    id in w.known && id !in w.flight && w.leaked[id] == 0
  }

  lemma SettledStep(w: World, a: Act, id: Id)
    requires WorldInv(w) && CanAct(w, a) && Settled(w, id)
    ensures Settled(Next(w, a), id) && Next(w, a).root == w.root
    ensures id in w.sealed ==> id in Next(w, a).sealed && Next(w, a).sealed[id] == w.sealed[id]
  {
  }

  lemma {:induction false} StaysSettled(w: World, acts: seq<Act>, id: Id)
    requires WorldInv(w) && CanRun(w, acts) && Settled(w, id)
    ensures Settled(RunAll(w, acts), id)
    ensures RunAll(w, acts).root == w.root
    ensures id in w.sealed ==> id in RunAll(w, acts).sealed && RunAll(w, acts).sealed[id] == w.sealed[id]
    decreases |acts|
  {
    if acts != [] {
      ActInv(w, acts[0]);
      SettledStep(w, acts[0], id);
      StaysSettled(Next(w, acts[0]), acts[1..], id);
    }
  }

  /** Under any interleaving, the shadow file of a version does not change while the version is on its list. */
  lemma PublishedShadowsNeverChange(w: World, acts: seq<Act>, ino: nat, v: Version)
    requires WorldInv(w) && CanRun(w, acts) && v.hasData
    requires v in ListOf(w.store, ino) && v in ListOf(RunAll(w, acts).store, ino)
    ensures v.path in w.shadow && v.path in RunAll(w, acts).shadow
    ensures RunAll(w, acts).shadow[v.path] == w.shadow[v.path]
  {
    ListedOnly(w, ino, v);
    RunAllInv(w, acts);
    StaysSettled(w, acts, Id(ino, v.ts));
    assert Backed(w, ino, v) && Backed(RunAll(w, acts), ino, v);
  }

  /** No version is freed twice, nor while it is on a list, detached but not yet freed, or still in flight. */
  lemma FreedOnce(w: World, acts: seq<Act>, id: Id)
    requires WorldInv(w) && CanRun(w, acts)
    ensures var r := RunAll(w, acts);
      && r.freed[id] <= 1
      && (r.freed[id] == 1 ==> Count(ListOf(r.store, id.ino), id.ts) == 0 && LooseCount(r.limbo, id) == 0
                               && id !in r.flight && r.leaked[id] == 0)
  {
    RunAllInv(w, acts);
    var r := RunAll(w, acts);
    assert Holders(r, id) <= 1;
  }

  /** Once the table is empty and nothing waits to be freed, every version that was ever published is freed. */
  lemma TeardownFreesAll(w: World, acts: seq<Act>, ino: nat, v: Version)
    requires WorldInv(w) && CanRun(w, acts) && v in ListOf(w.store, ino)
    requires RunAll(w, acts).store == map[] && RunAll(w, acts).limbo == multiset{}
    ensures RunAll(w, acts).freed[Id(ino, v.ts)] == 1
  {
    ListedOnly(w, ino, v);
    RunAllInv(w, acts);
    StaysSettled(w, acts, Id(ino, v.ts));
    assert Holders(RunAll(w, acts), Id(ino, v.ts)) == 1;
  }

  lemma {:induction false} DetachEvery(w: World) returns (acts: seq<Act>)
    ensures CanRun(w, acts) && RunAll(w, acts).store == map[]
    ensures forall i :: 0 <= i < |acts| ==> acts[i].DetachAll?
    decreases |w.store.Keys|
  {
    acts := [];
    if w.store != map[] {
      assert w.store.Keys != {};
      var ino :| ino in w.store.Keys;
      var a := DetachAll(ino);
      assert Next(w, a).store.Keys == w.store.Keys - {ino};
      var rest := DetachEvery(Next(w, a));
      acts := [a] + rest;
      assert acts[0] == a && acts[1..] == rest;
    }
  }

  lemma {:induction false} FreeEvery(w: World, reach: Reach) returns (acts: seq<Act>)
    ensures CanRun(w, acts) && RunAll(w, acts).limbo == multiset{} && RunAll(w, acts).store == w.store
    ensures forall i :: 0 <= i < |acts| ==> acts[i].FreeOne? && acts[i].reach == reach
    decreases |w.limbo|
  {
    acts := [];
    if w.limbo != multiset{} {
      var x := Pick(w.limbo);
      var a := FreeOne(x.ino, x.v, reach);
      assert Loose(x.ino, x.v) == x;
      var rest := FreeEvery(Next(w, a), reach);
      acts := [a] + rest;
      assert acts[0] == a && acts[1..] == rest;
    }
  }

  /** Teardown gets there, by detaching every record and freeing what was detached, whatever removals get at. */
  lemma Teardown(w: World, reach: Reach) returns (acts: seq<Act>)
    ensures CanRun(w, acts)
    ensures forall i :: 0 <= i < |acts| ==> acts[i].DetachAll? || (acts[i].FreeOne? && acts[i].reach == reach)
    ensures RunAll(w, acts).store == map[] && RunAll(w, acts).limbo == multiset{}
  {
    var first := DetachEvery(w);
    var second := FreeEvery(RunAll(w, first), reach);
    RunConcat(w, first, second);
    acts := first + second;
  }

  // ---------------------------------------------------------------- time order

  /**
   * A list is in the order of publishing, not of allocation. Publishing keeps it in time order exactly when the
   * version is newer than all that are listed already.
   */
  lemma PublishingKeepsOrderIff(w: World, a: Act)
    requires CanAct(w, a) && a.Put? && (a.id.ino in w.store || a.record)
    requires Descending(ListOf(w.store, a.id.ino))
    ensures Descending(ListOf(Next(w, a).store, a.id.ino))
       <==> forall v :: v in ListOf(w.store, a.id.ino) ==> v.ts < a.id.ts
  {
    var l, r := ListOf(w.store, a.id.ino), ListOf(Next(w, a).store, a.id.ino);
    if Descending(r) && l != [] {
      assert r[0].ts > r[1].ts && r[1] == l[0];
      forall v | v in l ensures v.ts < a.id.ts {
        var k :| 0 <= k < |l| && l[k] == v;
      }
    }
  }

  /** Two threads, the second to allocate the first to publish: timestamp 0 no longer finds the newest version. */
  lemma OvertakenPublication(root: string, stat: Stat) returns (acts: seq<Act>, newer: Version)
    ensures CanRun(NewWorld(root), acts)
    ensures var l := ListOf(RunAll(NewWorld(root), acts).store, 7);
      newer in l && Find(l, 0).Some? && Find(l, 0).value.ts < newer.ts
  {
    var w0, a, b := NewWorld(root), Id(7, 1), Id(7, 2);
    var first, second := Put(b, OpSetattr, "", stat, false, true), Put(a, OpSetattr, "", stat, false, true);
    newer := Version(2, OpSetattr, "", "", stat, false);
    var w1 := Next(w0, Allocate(a));
    var w2 := Next(w1, Allocate(b));
    var w3 := Next(w2, first);
    var w4 := Next(w3, second);
    assert w4.store[7] == [Version(1, OpSetattr, "", "", stat, false), newer];
    acts := [];
    acts := RunMore(w0, acts, Allocate(a));
    acts := RunMore(w0, acts, Allocate(b));
    acts := RunMore(w0, acts, first);
    acts := RunMore(w0, acts, second);
  }

  lemma RunMore(w: World, acts: seq<Act>, a: Act) returns (more: seq<Act>)
    requires CanRun(w, acts) && CanAct(RunAll(w, acts), a)
    ensures more == acts + [a] && CanRun(w, more) && RunAll(w, more) == Next(RunAll(w, acts), a)
  {
    more := acts + [a];
    RunOne(RunAll(w, acts), a);
    RunConcat(w, acts, [a]);
  }

  // ---------------------------------------------------------------- time order across lists

  /** What a step of publishing puts on the list. */
  function PutVersion(w: World, a: Act): Version
    requires a.Put?
  {
    Version(a.id.ts, a.op, if a.hasData then PathOf(w, a.id) else "", a.name, a.stat, a.hasData)
  }

  /** The search for a deleted file can return nothing but `v`. */
  ghost predicate FindsOnly(m: Store, name: string, v: Version) {
    forall r :: IsBest(m, name, 0, r) ==> r == Some(v)
  }

  lemma FindsOnlyIff(m: Store, v: Version)
    requires Stored(m, v) && v.op == OpUnlink
    ensures FindsOnly(m, v.name, v) <==> forall x :: Stored(m, x) && Matches(x, v.name, 0) && x != v ==> x.ts < v.ts
  {
    assert Matches(v, v.name, 0);
    if x :| Stored(m, x) && Matches(x, v.name, 0) && x != v && x.ts >= v.ts {
      var r := FindDeleted(m, v.name, 0);
      if r == Some(v) {
        assert IsBest(m, v.name, 0, Some(x));
      }
      assert !FindsOnly(m, v.name, v);
    }
  }

  /**
   * Publishing an UNLINK version makes it the one that the search for its base name finds exactly when it is newer
   * than all other UNLINK versions of that name, on whatever lists they are: the search does not find the version that
   * was added last, and the order of the lists does not help.
   */
  lemma LastAddedIsFoundIff(w: World, a: Act)
    requires CanAct(w, a) && a.Put? && a.op == OpUnlink && (a.id.ino in w.store || a.record)
    ensures var (m, v) := (Next(w, a).store, PutVersion(w, a));
      && Stored(m, v)
      && (FindsOnly(m, a.name, v) <==> forall x :: Stored(m, x) && Matches(x, a.name, 0) && x != v ==> x.ts < v.ts)
  {
    var m, v := Next(w, a).store, PutVersion(w, a);
    assert m[a.id.ino] == Insert(ListOf(w.store, a.id.ino), v);
    assert m[a.id.ino][0] == v;
    FindsOnlyIff(m, v);
  }

  /** The first version of an inode is alone on its list. */
  lemma PutFirst(w: World, a: Act)
    requires CanAct(w, a) && a.Put? && a.record && a.id.ino !in w.store
    ensures Next(w, a).store == w.store[a.id.ino := [PutVersion(w, a)]]
    ensures Next(w, a).root == w.root && Next(w, a).shadow == w.shadow && Next(w, a).flight == w.flight - {a.id}
  {
    var v := PutVersion(w, a);
    assert Insert([], v) == [v];
  }

  /** Two captures that have started their copies. */
  lemma TwoInFlight(root: string, a: Id, b: Id) returns (acts: seq<Act>)
    requires a != b && 0 < a.ts < U64_RANGE && 0 < b.ts < U64_RANGE && a.ino < U64_RANGE && b.ino < U64_RANGE
    ensures CanRun(NewWorld(root), acts)
    ensures var w := RunAll(NewWorld(root), acts);
      && w.root == root && w.store == map[] && w.flight == map[a := true, b := true]
      && MakePath(root, a.ino, a.ts) in w.shadow && MakePath(root, b.ino, b.ts) in w.shadow
  {
    var w0 := NewWorld(root);
    assert CanRun(w0, []) && RunAll(w0, []) == w0;
    acts := RunMore(w0, [], Allocate(a));
    acts := RunMore(w0, acts, Allocate(b));
    acts := RunMore(w0, acts, StartCopy(a));
    acts := RunMore(w0, acts, StartCopy(b));
  }

  /**
   * Two unlinks of one base name, the second to allocate the first to publish, on the lists of two inodes: both lists
   * are in time order, and the search finds the version that was added first.
   */
  lemma OvertakenDeletion(root: string, name: string, stat: Stat) returns (acts: seq<Act>, last: Version)
    ensures CanRun(NewWorld(root), acts) && acts != [] && acts[|acts| - 1].Put? && acts[|acts| - 1].id == Id(7, 1)
    ensures var m := RunAll(NewWorld(root), acts).store;
      && m.Keys == {7, 8} && Descending(m[7]) && Descending(m[8])
      && m[7] == [last] && Matches(last, name, 0)
      && FindDeleted(m, name, 0).Some? && FindDeleted(m, name, 0).value.ts > last.ts
  {
    var w0, a, b := NewWorld(root), Id(7, 1), Id(8, 2);
    var first, second := Put(b, OpUnlink, name, stat, true, true), Put(a, OpUnlink, name, stat, true, true);
    acts := TwoInFlight(root, a, b);
    last := Version(1, OpUnlink, MakePath(root, 7, 1), name, stat, true);
    var other := Version(2, OpUnlink, MakePath(root, 8, 2), name, stat, true);
    var w1 := RunAll(w0, acts);
    PutFirst(w1, first);
    acts := RunMore(w0, acts, first);
    var w2 := RunAll(w0, acts);
    PutFirst(w2, second);
    acts := RunMore(w0, acts, second);
    var m := RunAll(w0, acts).store;
    assert Stored(m, other) by { assert other in m[8]; }
    assert Matches(other, name, 0);
  }
}
