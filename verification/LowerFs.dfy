/** The lower file system as cowfs sees it: directories, regular files, and the VFS calls that change them. */
module LowerFs {
  import opened CowTypes
  import opened ShadowNames

  datatype Inode = Inode(content: Bytes, uid: nat, gid: nat, mode: bv16)

  /** Directories by path, files by inode number; `foreign` are the paths that resolve outside the cowfs mount. */
  datatype Lower = Lower(dirs: map<string, map<string, nat>>, nodes: map<nat, Inode>, foreign: set<string>)

  /** `vfs_getattr`. */
  function StatOf(n: Inode): Stat {
    Stat(n.uid, n.gid, n.mode)
  }

  /** The fields of `struct iattr` that matter here; None is a cleared `ia_valid` bit. */
  datatype Attr = Attr(size: Option<nat>, uid: Option<nat>, gid: Option<nat>, mode: Option<bv16>)

  function Resize(b: Bytes, n: nat): Bytes {
    if n <= |b| then b[..n] else b + seq(n - |b|, _ => 0)
  }

  function Or<T>(o: Option<T>, default: T): T {
    match o case None => default case Some(t) => t
  }

  /** The effect of a successful `notify_change`. */
  function NotifyChange(n: Inode, a: Attr): Inode {
    Inode(match a.size case None => n.content case Some(k) => Resize(n.content, k),
          Or(a.uid, n.uid), Or(a.gid, n.gid), Or(a.mode, n.mode))
  }

  // ---------------------------------------------------------------- names and paths

  /** The directory part, with the special case that keeps the slash of the root. */
  function DirOf(path: string): string
    requires LastSlash(path) >= 0
  {
    if LastSlash(path) == 0 then path[..1] else path[..LastSlash(path)]
  }

  function Join(dir: string, name: string): string {
    if dir == "/" then dir + name else dir + "/" + name
  }

  lemma JoinSplits(dir: string, name: string)
    requires dir != "" && LegalName(name)
    ensures LastSlash(Join(dir, name)) >= 0
    ensures DirOf(Join(dir, name)) == dir && BaseName(Join(dir, name)) == name
  {
    var p := Join(dir, name);
    var k := if dir == "/" then 0 else |dir|;
    assert p[k] == '/' && forall i :: k < i < |p| ==> p[i] == name[i - k - 1];
    assert LastSlash(p) == k;
    assert p[k + 1..] == name;
    assert k > 0 ==> p[..k] == dir;
    assert k == 0 ==> p[..1] == dir;
  }

  predicate HasEntry(lo: Lower, dir: string, name: string) {
    dir in lo.dirs && name in lo.dirs[dir]
  }

  /** `kern_path` for an absolute path to a file. */
  function Resolve(lo: Lower, path: string): Option<nat> {
    if LastSlash(path) >= 0 && HasEntry(lo, DirOf(path), BaseName(path))
    then Some(lo.dirs[DirOf(path)][BaseName(path)])
    else None
  }

  // ---------------------------------------------------------------- the VFS calls

  function AddEntry(lo: Lower, dir: string, name: string, ino: nat): Lower
    requires dir in lo.dirs
  {
    var d: map<string, nat> := lo.dirs[dir][name := ino];
    lo.(dirs := lo.dirs[dir := d])
  }

  function DropEntry(lo: Lower, dir: string, name: string): Lower
    requires dir in lo.dirs
  {
    lo.(dirs := lo.dirs[dir := lo.dirs[dir] - {name}])
  }

  function SetNode(lo: Lower, ino: nat, n: Inode): Lower {
    lo.(nodes := lo.nodes[ino := n])
  }

  /** `vfs_rename` with flags 0: nothing if source and target are the same file, otherwise the target is replaced. */
  function RenameEntry(lo: Lower, dir: string, name: string, newDir: string, newName: string): Lower
    requires HasEntry(lo, dir, name) && newDir in lo.dirs
  {
    var ino := lo.dirs[dir][name];
    if HasEntry(lo, newDir, newName) && lo.dirs[newDir][newName] == ino then lo
    else AddEntry(DropEntry(lo, dir, name), newDir, newName, ino)
  }

  ghost predicate LowerInv(lo: Lower) {
    && "" !in lo.dirs
    && (forall ino :: ino in lo.nodes ==> ino < U64_RANGE)
    && (forall d, n :: HasEntry(lo, d, n) ==> LegalName(n) && lo.dirs[d][n] in lo.nodes)
  }
}
