/** What the version store means: a map from inode number to a newest-added-first list of at most 64 versions. */
module VersionLists {
  import opened CowTypes

  type Store = map<nat, seq<Version>>

  function ListOf(m: Store, ino: nat): seq<Version> {
    if ino in m then m[ino] else []
  }

  // ---------------------------------------------------------------- add

  /** The list after `cowfs_version_add`: the new version in front, the last one dropped from a full list. */
  function Insert(l: seq<Version>, v: Version): seq<Version> {
    [v] + if |l| >= MAX_VERSIONS then l[..|l| - 1] else l
  }

  /** The version that `cowfs_version_add` hands to `cowfs_version_free`. */
  function Evicted(l: seq<Version>): Option<Version> {
    if |l| >= MAX_VERSIONS then Some(l[|l| - 1]) else None
  }

  // ---------------------------------------------------------------- find

  function Find(l: seq<Version>, ts: nat): (r: Option<Version>)
    ensures r.Some? ==> r.value in l && (ts == 0 || r.value.ts == ts)
    ensures r.None? ==> (forall v :: v in l ==> ts != 0 && v.ts != ts)
  {
    if l == [] then None
    else if ts == 0 || l[0].ts == ts then Some(l[0])
    else Find(l[1..], ts)
  }

  /** `v` is an UNLINK version of `name` that a search for `ts` accepts. */
  predicate Matches(v: Version, name: string, ts: nat) {
    v.op == OpUnlink && v.name == name && (ts == 0 || v.ts == ts)
  }

  ghost predicate Stored(m: Store, v: Version) {
    exists ino :: ino in m && v in m[ino]
  }

  /** What `cowfs_version_find_deleted` promises: a matching version with the largest timestamp, None without one. */
  ghost predicate IsBest(m: Store, name: string, ts: nat, r: Option<Version>) {
    match r
    case None => forall v :: Stored(m, v) ==> !Matches(v, name, ts)
    case Some(b) =>
      && Stored(m, b) && Matches(b, name, ts)
      && forall v :: Stored(m, v) && Matches(v, name, ts) ==> v.ts <= b.ts
  }

  ghost function FindDeleted(m: Store, name: string, ts: nat): (r: Option<Version>)
    ensures IsBest(m, name, ts, r)
  {
    BestExists(m, name, ts, m.Keys);
    var r :| IsBest(m, name, ts, r);
    r
  }

  /** The best match in one list, by the scan order of the code. */
  lemma {:induction false} BestInList(l: seq<Version>, name: string, ts: nat) returns (r: Option<Version>)
    ensures r.None? ==> forall v :: v in l ==> !Matches(v, name, ts)
    ensures r.Some? ==> r.value in l && Matches(r.value, name, ts)
    ensures r.Some? ==> forall v :: v in l && Matches(v, name, ts) ==> v.ts <= r.value.ts
  {
    if l == [] {
      r := None;
    } else {
      r := BestInList(l[1..], name, ts);
      if Matches(l[0], name, ts) && (r.None? || l[0].ts > r.value.ts) {
        r := Some(l[0]);
      }
      assert forall v :: v in l ==> v == l[0] || v in l[1..];
    }
  }

  function Only(m: Store, keys: set<nat>): Store {
    map ino | ino in m && ino in keys :: m[ino]
  }

  lemma {:induction false} BestExists(m: Store, name: string, ts: nat, keys: set<nat>)
    requires keys <= m.Keys
    ensures exists r :: IsBest(Only(m, keys), name, ts, r)
    ensures keys == m.Keys ==> exists r :: IsBest(m, name, ts, r)
    decreases keys
  {
    if keys == {} {
      assert IsBest(Only(m, keys), name, ts, None);
    } else {
      var k :| k in keys;
      BestExists(m, name, ts, keys - {k});
      var rest, all := Only(m, keys - {k}), Only(m, keys);
      var r :| IsBest(rest, name, ts, r);
      var b := BestInList(m[k], name, ts);
      forall v | Stored(all, v) ensures v in m[k] || Stored(rest, v) {
        var ino :| ino in all && v in all[ino];
        assert ino != k ==> ino in rest;
      }
      forall v | Stored(rest, v) ensures Stored(all, v) {
        var ino :| ino in rest && v in rest[ino];
        assert ino in all;
      }
      assert forall v :: v in m[k] ==> k in all && v in all[k] && Stored(all, v);
      var best := if b.Some? && (r.None? || b.value.ts > r.value.ts) then b else r;
      assert IsBest(all, name, ts, best);
    }
    assert Only(m, m.Keys) == m;
  }

  // ---------------------------------------------------------------- garbage collection

  /** The cutoff of `cowfs_version_gc`, in wrapping unsigned 64-bit arithmetic. */
  function Cutoff(now: nat, window: nat): nat {
    (now - window * NSEC_PER_SEC) % U64_RANGE
  }

  function Keep(l: seq<Version>, cutoff: nat): (r: seq<Version>)
    ensures |r| <= |l|
    ensures forall v :: v in r <==> v in l && v.ts >= cutoff
  {
    if l == [] then []
    else
      var rest := Keep(l[1..], cutoff);
      assert forall v :: v in l <==> v == l[0] || v in l[1..];
      if l[0].ts < cutoff then rest else [l[0]] + rest
  }

  function Collect(m: Store, cutoff: nat): Store {
    map ino | ino in m :: Keep(m[ino], cutoff)
  }

  /** The store when a collection has visited the inodes in `done`. */
  ghost function Progress(m: Store, done: set<nat>, cutoff: nat): Store {
    map ino | ino in m :: if ino in done then Keep(m[ino], cutoff) else m[ino]
  }

  /** `v` was detached from the list of an inode in `done`. */
  ghost predicate Gone(m: Store, done: set<nat>, cutoff: nat, v: Version) {
    exists ino :: ino in m && ino in done && v in m[ino] && v.ts < cutoff
  }

  lemma {:induction false} KeepConcat(a: seq<Version>, b: seq<Version>, cutoff: nat)
    ensures Keep(a + b, cutoff) == Keep(a, cutoff) + Keep(b, cutoff)
  {
    if a == [] {
      assert a + b == b;
    } else {
      assert (a + b)[1..] == a[1..] + b;
      KeepConcat(a[1..], b, cutoff);
    }
  }

  lemma {:induction false} KeepTwice(l: seq<Version>, c1: nat, c2: nat)
    requires c1 <= c2
    ensures Keep(Keep(l, c1), c2) == Keep(l, c2)
  {
    if l != [] {
      KeepTwice(l[1..], c1, c2);
    }
  }

  /** Keeping loses nothing but expired versions, in order: the kept list is the list itself when nothing is expired. */
  lemma {:induction false} KeepAll(l: seq<Version>, cutoff: nat)
    requires forall v :: v in l ==> v.ts >= cutoff
    ensures Keep(l, cutoff) == l
  {
    if l != [] {
      assert forall v :: v in l[1..] ==> v in l;
      KeepAll(l[1..], cutoff);
    }
  }

  /** A run at time `now` discards a version stamped `ts`. */
  predicate Discards(now: nat, window: nat, ts: nat) {
    ts < Cutoff(now, window)
  }

  /** At time `now` the code discards exactly the versions that are older than the window; no version is stamped 0. */
  ghost predicate HonoursWindow(now: nat, window: nat) {
    forall ts: nat :: 0 < ts <= now ==> (Discards(now, window, ts) <==> ts + window * NSEC_PER_SEC < now)
  }

  lemma CutoffValue(now: nat, window: nat)
    requires now < U64_RANGE
    ensures var m := window * NSEC_PER_SEC % U64_RANGE;
            Cutoff(now, window) == if m <= now then now - m else U64_RANGE + now - m
  {
    var w := window * NSEC_PER_SEC;
    var m, q := w % U64_RANGE, w / U64_RANGE;
    var c := if m <= now then now - m else U64_RANGE + now - m;
    var k := if m <= now then -q else -q - 1;
    assert now - w == k * U64_RANGE + c;
    Residue(now - w, k, c);
  }

  lemma CollectTwiceAt(m: Store, c1: nat, c2: nat)
    requires c1 <= c2
    ensures Collect(Collect(m, c1), c2) == Collect(m, c2)
  {
    forall ino | ino in m ensures Keep(Keep(m[ino], c1), c2) == Keep(m[ino], c2) {
      KeepTwice(m[ino], c1, c2);
    }
  }

  /** With a fixed window and a clock that does not go back, a second run makes the first one redundant. */
  lemma CollectTwice(m: Store, now1: nat, now2: nat, window: nat)
    requires window * NSEC_PER_SEC <= now1 <= now2 < U64_RANGE
    ensures Collect(Collect(m, Cutoff(now1, window)), Cutoff(now2, window)) == Collect(m, Cutoff(now2, window))
  {
    CutoffValue(now1, window);
    CutoffValue(now2, window);
    CollectTwiceAt(m, Cutoff(now1, window), Cutoff(now2, window));
  }

  lemma Residue(x: int, k: int, c: nat)
    requires x == k * U64_RANGE + c && c < U64_RANGE
    ensures x % U64_RANGE == c
  {
  }

  /**
   * The unsigned subtraction is right exactly when the clock has run for a whole window, or the product wraps around
   * to the clock or just below it, so that the cutoff is 0 or 1 (or when the clock shows 0 and there is no version).
   */
  lemma WindowExactIff(now: nat, window: nat)
    requires now < U64_RANGE
    ensures var w := window * NSEC_PER_SEC;
      HonoursWindow(now, window) <==> w <= now || now == 0 || now - 1 <= w % U64_RANGE <= now
  {
    CutoffValue(now, window);
    var w := window * NSEC_PER_SEC;
    var m := w % U64_RANGE;
    if w > now > 0 && !(now - 1 <= m <= now) {
      var ts := if m < now then 1 else now;
      assert Discards(now, window, ts);
    }
  }

  /** Ten seconds after the epoch the default 300-second window discards a version made this very instant. */
  lemma EarlyClockDiscardsEverything(v: Version)
    requires v.ts == 10 * NSEC_PER_SEC
    ensures Keep([v], Cutoff(10 * NSEC_PER_SEC, 300)) == []
  {
    assert Cutoff(10 * NSEC_PER_SEC, 300) == U64_RANGE - 290 * NSEC_PER_SEC;
  }

  // ---------------------------------------------------------------- time order

  ghost predicate Descending(l: seq<Version>) {
    forall i, j :: 0 <= i < j < |l| ==> l[i].ts > l[j].ts
  }

  lemma DescendingInsert(l: seq<Version>, v: Version)
    requires Descending(l) && (forall w :: w in l ==> w.ts < v.ts)
    ensures Descending(Insert(l, v))
  {
  }

  lemma {:induction false} KeepNone(l: seq<Version>, cutoff: nat)
    requires forall v :: v in l ==> v.ts < cutoff
    ensures Keep(l, cutoff) == []
  {
    if l != [] {
      assert l[0] in l && forall v :: v in l[1..] ==> v in l;
      KeepNone(l[1..], cutoff);
    }
  }

  lemma DescendingTail(l: seq<Version>)
    requires Descending(l) && l != []
    ensures Descending(l[1..]) && forall v :: v in l[1..] ==> v.ts < l[0].ts
  {
    var rest := l[1..];
    forall i, j | 0 <= i < j < |rest| ensures rest[i].ts > rest[j].ts {
      assert rest[i] == l[i + 1] && rest[j] == l[j + 1];
    }
    forall v | v in rest ensures v.ts < l[0].ts {
      var i :| 0 <= i < |rest| && rest[i] == v;
      assert rest[i] == l[i + 1];
    }
  }

  /** In a time-ordered list the collector cuts off a tail: it keeps a prefix, and everything after it is expired. */
  lemma {:induction false} KeepIsPrefix(l: seq<Version>, cutoff: nat)
    requires Descending(l)
    ensures Keep(l, cutoff) == l[..|Keep(l, cutoff)|]
    ensures forall i :: |Keep(l, cutoff)| <= i < |l| ==> l[i].ts < cutoff
  {
    if l != [] {
      DescendingTail(l);
      if l[0].ts < cutoff {
        KeepNone(l, cutoff);
      } else {
        KeepIsPrefix(l[1..], cutoff);
        var k := |Keep(l[1..], cutoff)|;
        assert l[..k + 1] == [l[0]] + l[1..][..k];
        forall i | k + 1 <= i < |l| ensures l[i].ts < cutoff {
          assert l[i] == l[1..][i - 1];
        }
      }
    }
  }

  /** A search by timestamp finds exactly the version that carries it; a search for 0 finds the newest. */
  lemma {:induction false} FindByTime(l: seq<Version>, k: nat)
    requires Descending(l) && k < |l| && (forall v :: v in l ==> v.ts > 0)
    ensures Find(l, l[k].ts) == Some(l[k])
    ensures Find(l, 0) == Some(l[0]) && forall v :: v in l ==> v.ts <= l[0].ts
  {
    if k > 0 {
      assert forall v :: v in l[1..] ==> v in l;
      assert l[1..][k - 1] == l[k];
      FindByTime(l[1..], k - 1);
    }
  }

  /** The version that a full list gives up is the oldest one. */
  lemma EvictedIsOldest(l: seq<Version>)
    requires Descending(l) && |l| >= MAX_VERSIONS
    ensures Evicted(l).Some?
    ensures forall v :: v in l ==> v.ts >= Evicted(l).value.ts
  {
  }

  /** A kept version does not move away from the front, and stays in the list, when a collection runs. */
  lemma {:induction false} KeepPosition(l: seq<Version>, cutoff: nat, k: nat) returns (j: nat)
    requires k < |l| && l[k].ts >= cutoff
    ensures j <= k && j < |Keep(l, cutoff)| && Keep(l, cutoff)[j] == l[k]
  {
    if k == 0 {
      j := 0;
    } else {
      j := KeepPosition(l[1..], cutoff, k - 1);
      j := if l[0].ts < cutoff then j else j + 1;
    }
  }
}
