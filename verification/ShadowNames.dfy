/** How shadow files are named: `root/ino_ts`, printed into a 256-byte buffer, and read back by base name. */
module ShadowNames {
  import opened CowTypes

  function Digit(d: nat): (c: char)
    requires d < 10
    ensures '0' <= c <= '9'
    ensures c as int - '0' as int == d
  {
    '0' + d as char
  }

  /** `%lu` and `%llu`. */
  function Dec(n: nat): (s: string)
    ensures |s| > 0
    ensures forall k :: 0 <= k < |s| ==> '0' <= s[k] <= '9'
  {
    if n < 10 then [Digit(n)] else Dec(n / 10) + [Digit(n % 10)]
  }

  function FileName(ino: nat, ts: nat): string {
    Dec(ino) + "_" + Dec(ts)
  }

  function FullPath(root: string, ino: nat, ts: nat): string {
    root + "/" + FileName(ino, ts)
  }

  /** `cowfs_shadow_make_path`: `snprintf` keeps at most 255 characters. */
  function MakePath(root: string, ino: nat, ts: nat): string {
    var p := FullPath(root, ino, ts);
    if |p| < PATH_BUF_SIZE then p else p[..PATH_BUF_SIZE - 1]
  }

  /** `strrchr(s, '/')` as an index; -1 stands for NULL. */
  function LastSlash(s: string): (r: int)
    ensures -1 <= r < |s|
    ensures r >= 0 ==> s[r] == '/'
    ensures forall k :: r < k < |s| ==> s[k] != '/'
  {
    if s == [] then -1
    else if s[|s| - 1] == '/' then |s| - 1
    else LastSlash(s[..|s| - 1])
  }

  function BaseName(s: string): string {
    s[LastSlash(s) + 1..]
  }

  /** The file that `cowfs_shadow_remove(path)` deletes: the base name, looked up in the shadow directory. */
  function RemovalTarget(root: string, path: string): string {
    root + "/" + BaseName(path)
  }

  /** What the VFS guarantees of a directory entry; 255 characters also fit the 256-byte `orig_name`. */
  predicate LegalName(name: string) {
    0 < |name| < PATH_BUF_SIZE && '/' !in name
  }

  predicate Fits(root: string, ino: nat, ts: nat) {
    |FullPath(root, ino, ts)| < PATH_BUF_SIZE
  }

  /** A root this short leaves room for every pair of 64-bit numbers. */
  predicate ShortRoot(root: string) {
    |root| <= 213
  }

  // ---------------------------------------------------------------- decimal printing

  lemma {:induction false} DecInjective(a: nat, b: nat)
    requires Dec(a) == Dec(b)
    ensures a == b
  {
    if a < 10 && b < 10 {
      assert Dec(a)[0] == Dec(b)[0];
    } else if a < 10 || b < 10 {
      assert false;
    } else {
      var la, lb := |Dec(a)|, |Dec(b)|;
      assert Dec(a)[..la - 1] == Dec(a / 10);
      assert Dec(b)[..lb - 1] == Dec(b / 10);
      assert Dec(a)[la - 1] == Digit(a % 10);
      assert Dec(b)[lb - 1] == Digit(b % 10);
      DecInjective(a / 10, b / 10);
    }
  }

  function Pow10(k: nat): nat {
    if k == 0 then 1 else 10 * Pow10(k - 1)
  }

  lemma {:induction false} DecLength(n: nat, k: nat)
    requires 0 < k && n < Pow10(k)
    ensures |Dec(n)| <= k
  {
    if n >= 10 {
      assert Pow10(1) == 10;
      DecLength(n / 10, k - 1);
    }
  }

  lemma U64Length(n: nat)
    requires n < U64_RANGE
    ensures |Dec(n)| <= 20
  {
    assert Pow10(5) == 100_000;
    assert Pow10(10) == 10_000_000_000;
    assert Pow10(15) == 1_000_000_000_000_000;
    assert Pow10(20) == 100_000_000_000_000_000_000;
    DecLength(n, 20);
  }

  /** A number whose digits properly extend those of `a` is at least ten times `a`, and positive. */
  lemma {:induction false} DecExtends(a: nat, b: nat)
    requires |Dec(a)| < |Dec(b)| && Dec(b)[..|Dec(a)|] == Dec(a)
    ensures 0 < a && 10 * a <= b
  {
    assert b >= 10;
    var front := Dec(b / 10);
    assert Dec(b)[..|front|] == front;
    if |Dec(a)| == |front| {
      assert Dec(a) == front;
      DecInjective(a, b / 10);
    } else {
      assert front[..|Dec(a)|] == Dec(b)[..|Dec(a)|];
      DecExtends(a, b / 10);
    }
  }

  // ---------------------------------------------------------------- names

  /** The characters of a printed name. */
  lemma NameAt(ino: nat, ts: nat, k: nat)
    requires k < |FileName(ino, ts)|
    ensures k < |Dec(ino)| ==> FileName(ino, ts)[k] == Dec(ino)[k] && FileName(ino, ts)[k] != '_'
    ensures k == |Dec(ino)| ==> FileName(ino, ts)[k] == '_'
  {
  }

  lemma NameParts(ino: nat, ts: nat)
    ensures FileName(ino, ts)[..|Dec(ino)|] == Dec(ino) && FileName(ino, ts)[|Dec(ino)| + 1..] == Dec(ts)
  {
  }

  /** The first '_' separates the two numbers, so a name determines the inode number it was printed from. */
  lemma NamesAgree(i1: nat, t1: nat, i2: nat, t2: nat)
    requires |FileName(i1, t1)| <= |FileName(i2, t2)|
    requires FileName(i2, t2)[..|FileName(i1, t1)|] == FileName(i1, t1)
    ensures i1 == i2
    ensures |Dec(t1)| <= |Dec(t2)| && Dec(t2)[..|Dec(t1)|] == Dec(t1)
  {
    var a, b := FileName(i1, t1), FileName(i2, t2);
    SameInode(i1, t1, i2, t2);
    NameParts(i1, t1);
    NameParts(i2, t2);
    assert b[|Dec(i1)| + 1..][..|Dec(t1)|] == b[..|a|][|Dec(i1)| + 1..];
  }

  lemma SameInode(i1: nat, t1: nat, i2: nat, t2: nat)
    requires |FileName(i1, t1)| <= |FileName(i2, t2)|
    requires FileName(i2, t2)[..|FileName(i1, t1)|] == FileName(i1, t1)
    ensures i1 == i2
  {
    var a, b := FileName(i1, t1), FileName(i2, t2);
    var la, lb := |Dec(i1)|, |Dec(i2)|;
    var k := if la < lb then la else lb;
    assert b[..|a|][k] == b[k];
    NameAt(i1, t1, k);
    NameAt(i2, t2, k);
    assert la == lb;
    NameParts(i1, t1);
    NameParts(i2, t2);
    assert b[..|a|][..la] == b[..la];
    DecInjective(i1, i2);
  }

  lemma FileNameInjective(i1: nat, t1: nat, i2: nat, t2: nat)
    requires FileName(i1, t1) == FileName(i2, t2)
    ensures i1 == i2 && t1 == t2
  {
    NamesAgree(i1, t1, i2, t2);
    NamesAgree(i2, t2, i1, t1);
    DecInjective(t1, t2);
  }

  /** The base name found by the last-slash search is exactly the printed `ino_ts`. */
  lemma BaseNameOfFullPath(root: string, ino: nat, ts: nat)
    ensures BaseName(FullPath(root, ino, ts)) == FileName(ino, ts)
  {
    var p, f := FullPath(root, ino, ts), FileName(ino, ts);
    assert forall k :: 0 <= k < |f| ==> f[k] != '/';
    assert forall k :: |root| < k < |p| ==> p[k] == f[k - |root| - 1];
    assert p[|root|] == '/';
    assert LastSlash(p) == |root|;
    assert p[|root| + 1..] == f;
  }

  /** Two names that fit are equal only for the same pair. */
  lemma PathsDistinct(root: string, i1: nat, t1: nat, i2: nat, t2: nat)
    requires Fits(root, i1, t1) && Fits(root, i2, t2)
    requires MakePath(root, i1, t1) == MakePath(root, i2, t2)
    ensures i1 == i2 && t1 == t2
  {
    BaseNameOfFullPath(root, i1, t1);
    BaseNameOfFullPath(root, i2, t2);
    FileNameInjective(i1, t1, i2, t2);
  }

  /** Removal by base name deletes exactly the file that the copy created, whenever the name fits. */
  lemma RemovalHitsTheCopy(root: string, ino: nat, ts: nat)
    requires Fits(root, ino, ts)
    ensures RemovalTarget(root, MakePath(root, ino, ts)) == MakePath(root, ino, ts)
  {
    BaseNameOfFullPath(root, ino, ts);
    assert root + "/" + FileName(ino, ts) == root + ("/" + FileName(ino, ts));
  }

  lemma ShortRootFits(root: string, ino: nat, ts: nat)
    requires ShortRoot(root) && ino < U64_RANGE && ts < U64_RANGE
    ensures Fits(root, ino, ts)
    ensures MakePath(root, ino, ts) != ""
  {
    U64Length(ino);
    U64Length(ts);
  }

  // ---------------------------------------------------------------- exactly when a path is unique

  /** No other pair of 64-bit numbers prints to the same shadow path. */
  ghost predicate Unique(root: string, ino: nat, ts: nat) {
    forall i: nat, t: nat ::
      i < U64_RANGE && t < U64_RANGE && MakePath(root, i, t) == MakePath(root, ino, ts) ==> i == ino && t == ts
  }

  /** What a caller can check: there is room to spare, or just room and no longer number extends `ts`. */
  predicate Roomy(root: string, ino: nat, ts: nat) {
    || |FullPath(root, ino, ts)| < PATH_BUF_SIZE - 1
    || (|FullPath(root, ino, ts)| == PATH_BUF_SIZE - 1 && (ts == 0 || 10 * ts >= U64_RANGE))
  }

  lemma RoomyIsUnique(root: string, ino: nat, ts: nat, i: nat, t: nat)
    requires ino < U64_RANGE && ts < U64_RANGE && i < U64_RANGE && t < U64_RANGE
    requires Roomy(root, ino, ts) && MakePath(root, i, t) == MakePath(root, ino, ts)
    ensures i == ino && t == ts
  {
    var p, q := FullPath(root, ino, ts), FullPath(root, i, t);
    if |q| < PATH_BUF_SIZE {
      PathsDistinct(root, i, t, ino, ts);
    } else {
      var f, g := FileName(ino, ts), FileName(i, t);
      assert p == q[..PATH_BUF_SIZE - 1];
      assert f == p[|root| + 1..] == q[|root| + 1..][..|f|];
      assert g == q[|root| + 1..];
      NamesAgree(ino, ts, i, t);
      DecExtends(ts, t);
      assert false;
    }
  }

  /** Everything in a path but the last digit of its timestamp depends on `ts / 10` only. */
  function PathFront(root: string, ino: nat, tens: nat): string {
    root + "/" + Dec(ino) + "_" + (if tens == 0 then "" else Dec(tens))
  }

  lemma LastDigit(root: string, ino: nat, ts: nat)
    ensures FullPath(root, ino, ts) == PathFront(root, ino, ts / 10) + [Digit(ts % 10)]
  {
    var tens := if ts < 10 then "" else Dec(ts / 10);
    assert Dec(ts) == tens + [Digit(ts % 10)];
    assert FullPath(root, ino, ts) == root + "/" + Dec(ino) + "_" + tens + [Digit(ts % 10)];
  }

  lemma OtherLastDigit(ts: nat) returns (t: nat)
    requires ts < U64_RANGE
    ensures t < U64_RANGE && t != ts && t / 10 == ts / 10
  {
    t := if ts % 10 == 0 then ts + 1 else ts - ts % 10;
  }

  /** Dropping the last character of a too long path hides the last digit of the timestamp. */
  lemma TruncatedCollides(root: string, ino: nat, ts: nat) returns (t: nat)
    requires ts < U64_RANGE && !Fits(root, ino, ts)
    ensures t < U64_RANGE && t != ts && MakePath(root, ino, t) == MakePath(root, ino, ts)
  {
    t := OtherLastDigit(ts);
    LastDigit(root, ino, ts);
    LastDigit(root, ino, t);
    var front := PathFront(root, ino, ts / 10);
    CutBeforeLast(front, Digit(ts % 10), Digit(t % 10));
  }

  lemma CutBeforeLast(front: string, c: char, d: char)
    requires |front| >= PATH_BUF_SIZE - 1
    ensures (front + [c])[..PATH_BUF_SIZE - 1] == (front + [d])[..PATH_BUF_SIZE - 1]
  {
  }

  /** A path that just fits is the truncation of the path of every longer timestamp. */
  lemma ExtendedCollides(root: string, ino: nat, ts: nat)
    requires |FullPath(root, ino, ts)| == PATH_BUF_SIZE - 1 && 0 < ts
    ensures MakePath(root, ino, 10 * ts) == MakePath(root, ino, ts)
  {
    var p, q := FullPath(root, ino, ts), FullPath(root, ino, 10 * ts);
    assert 10 * ts / 10 == ts;
    assert Dec(10 * ts) == Dec(ts) + [Digit(0)];
    assert q == p + [Digit(0)];
  }

  /** A shadow path names its version alone exactly when it is `Roomy`. */
  lemma UniquePathIff(root: string, ino: nat, ts: nat)
    requires ino < U64_RANGE && ts < U64_RANGE
    ensures Unique(root, ino, ts) <==> Roomy(root, ino, ts)
  {
    if Roomy(root, ino, ts) {
      forall i: nat, t: nat | i < U64_RANGE && t < U64_RANGE && MakePath(root, i, t) == MakePath(root, ino, ts)
        ensures i == ino && t == ts
      {
        RoomyIsUnique(root, ino, ts, i, t);
      }
    } else if Fits(root, ino, ts) {
      ExtendedCollides(root, ino, ts);
      assert !Unique(root, ino, ts);
    } else {
      var t := TruncatedCollides(root, ino, ts);
      assert !Unique(root, ino, ts);
    }
  }
}
