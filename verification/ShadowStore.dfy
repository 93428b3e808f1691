/** The shadow directory as the code works on it. */
module ShadowStore {
  import opened CowTypes
  import opened ShadowNames
  import opened ShadowCopy
  import opened Vaults

  class ShadowDir {
    const root: string
    /** Full path to content. */
    var files: map<string, Bytes>
    /** `cowfs_shadow_dirpath_valid`: set by a mount, cleared by an unmount. */
    var attached: bool

    /** No files yet; `err` is the result of `cowfs_shadow_init`, which the mount does not insist on. */
    constructor (root: string, err: int)
      ensures this.root == root && files == map[] && attached == (err == 0)
    {
      this.root := root;
      files := map[];
      attached := err == 0;
    }

    /** `cowfs_shadow_init` of a later mount over the same directory, with its result. */
    method Init(err: int)
      modifies this`attached
      ensures attached == (err == 0 || old(attached))
    {
      if err == 0 {
        attached := true;
      }
    }

    /** `cowfs_shadow_cleanup`: the shadow files stay, but from now on nothing removes them. */
    method Cleanup()
      modifies this`attached
      ensures !attached
    {
      attached := false;
    }

    /** `cowfs_shadow_copy_file`: save `src` under `path`. */
    method CopyFile(src: Bytes, path: string, env: CopyEnv) returns (err: int)
      requires CopyLegal(src, env)
      modifies this`files
      ensures err == Copy(src, env).0
      ensures files == match Copy(src, env).1 case None => old(files) case Some(b) => old(files)[path := b]
      ensures err == 0 ==> path in files && (files[path] == src <==> FullWrites(env.io))
    {
      if !env.cred {
        return ENOMEM;
      }
      if env.srcErr < 0 {
        return env.srcErr;
      }
      if env.dstErr < 0 {
        return env.dstErr;
      }
      files := files[path := []];
      if !env.buf {
        return ENOMEM;
      }
      var dst: Bytes;
      err, dst := Transfer(src, env.io);
      files := files[path := dst];
    }

    /** `cowfs_shadow_restore_file`: what the file that held `target` holds afterwards. */
    method RestoreFile(path: string, target: Bytes, env: RestoreEnv) returns (err: int, content: Bytes)
      requires RestoreLegal(if path in files then Some(files[path]) else None, env)
      ensures (err, content) == Restore(if path in files then Some(files[path]) else None, target, env)
      ensures err == 0 ==> path in files && (content == files[path] <==> FullWrites(env.io))
    {
      content := target;
      if !env.cred {
        return ENOMEM, content;
      }
      if path !in files {
        return ENOENT, content;
      }
      if env.srcErr < 0 {
        return env.srcErr, content;
      }
      if env.dstErr < 0 {
        return env.dstErr, content;
      }
      err := env.truncErr;
      if err < 0 {
        return err, content;
      }
      content := [];
      if !env.buf {
        return ENOMEM, content;
      }
      err, content := Transfer(files[path], env.io);
    }

    /**
     * `cowfs_shadow_remove`: delete by base name, if the file is there and a mount is live. Without credentials, or
     * when the lookup or the unlink fails, the file is among the stuck ones and nothing is reported.
     */
    method Remove(path: string, stuck: set<string>)
      modifies this`files
      ensures var target := RemovalTarget(root, path);
        files == if Reaches(ReachOf(attached, stuck), target) then old(files) - {target} else old(files)
    {
      if !attached {
        return;
      }
      var base := BaseName(path);
      var victim := root + "/" + base;
      if victim in stuck {
        return;
      }
      if victim in files {
        files := files - {victim};
      } else {
        assert files - {victim} == files;
      }
    }

    /** `cowfs_version_free`. */
    method FreeVersion(v: Version, stuck: set<string>)
      modifies this`files
      ensures files == Free(old(files), root, v, ReachOf(attached, stuck))
    {
      if v.hasData {
        Remove(v.path, stuck);
      }
    }
  }
}
