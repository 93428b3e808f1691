/** The chunked copy between a file and its shadow, in both directions. */
module ShadowCopy {
  import opened CowTypes

  /** What one round got from `kernel_read` and from `kernel_write`; `written` is unused when `read <= 0`. */
  datatype IoStep = IoStep(read: int, written: int)

  /** `kernel_read` of a regular file with `left` bytes after the position: an error, end of file, or a chunk. */
  predicate LegalRead(read: int, left: nat) {
    read < 0 || (left == 0 && read == 0) || (0 < read <= left && read <= COPY_BUF_SIZE)
  }

  /** `io` is a complete behaviour of the loop over `src` from `pos`: legal rounds, ending where the loop stops. */
  predicate Plays(src: Bytes, pos: nat, io: seq<IoStep>)
    requires pos <= |src|
    decreases |io|
  {
    && |io| > 0
    && LegalRead(io[0].read, |src| - pos)
    && if io[0].read <= 0 then |io| == 1
       else
         && io[0].written <= io[0].read
         && if io[0].written < 0 then |io| == 1 else Plays(src, pos + io[0].read, io[1..])
  }

  /** Every write stored all the bytes it was given, or failed. */
  predicate FullWrites(io: seq<IoStep>) {
    forall k :: 0 <= k < |io| && io[k].read > 0 && io[k].written >= 0 ==> io[k].written == io[k].read
  }

  /** The error number of the call and the bytes the target holds afterwards. */
  datatype LoopResult = LoopResult(err: int, out: Bytes)

  function Loop(src: Bytes, pos: nat, out: Bytes, io: seq<IoStep>): LoopResult
    requires pos <= |src| && Plays(src, pos, io)
    decreases |io|
  {
    var n, w := io[0].read, io[0].written;
    if n <= 0 then LoopResult(n, out)
    else if w < 0 then LoopResult(w, out)
    else Loop(src, pos + n, out + src[pos..pos + w], io[1..])
  }

  // ---------------------------------------------------------------- what the loop does

  /** Both loops stop: at least one byte is consumed per round but the last. */
  lemma {:induction false} LoopTerminates(src: Bytes, pos: nat, io: seq<IoStep>)
    requires pos <= |src| && Plays(src, pos, io)
    ensures |io| <= |src| - pos + 1
    decreases |io|
  {
    if io[0].read > 0 && io[0].written >= 0 {
      LoopTerminates(src, pos + io[0].read, io[1..]);
    }
  }

  /** With all-or-error writes the target grows by a prefix of the source, by all of it when no error is returned. */
  lemma {:induction false} LoopAppendsPrefix(src: Bytes, pos: nat, out: Bytes, io: seq<IoStep>) returns (end: nat)
    requires pos <= |src| && Plays(src, pos, io) && FullWrites(io)
    ensures pos <= end <= |src|
    ensures Loop(src, pos, out, io).out == out + src[pos..end]
    ensures Loop(src, pos, out, io).err <= 0
    ensures Loop(src, pos, out, io).err == 0 ==> end == |src|
    decreases |io|
  {
    if io[0].read > 0 && io[0].written >= 0 {
      var next := pos + io[0].read;
      end := LoopAppendsPrefix(src, next, out + src[pos..next], io[1..]);
      assert out + src[pos..next] + src[next..end] == out + src[pos..end];
    } else {
      end := pos;
      assert out + src[pos..pos] == out;
    }
  }

  /** A short write loses its missing bytes for good: nothing later makes up for them. */
  lemma {:induction false} LoopLength(src: Bytes, pos: nat, out: Bytes, io: seq<IoStep>)
    requires pos <= |src| && Plays(src, pos, io)
    ensures |Loop(src, pos, out, io).out| <= |out| + |src| - pos
    ensures !FullWrites(io) ==> |Loop(src, pos, out, io).out| < |out| + |src| - pos
    decreases |io|
  {
    var n, w := io[0].read, io[0].written;
    if n > 0 && w >= 0 {
      LoopLength(src, pos + n, out + src[pos..pos + w], io[1..]);
      if w == n && !FullWrites(io) {
        assert !FullWrites(io[1..]) by {
          var k :| 0 <= k < |io| && io[k].read > 0 && io[k].written >= 0 && io[k].written != io[k].read;
          assert io[1..][k - 1] == io[k];
        }
      }
    }
  }

  /** If reads do not fail, an error means that bytes are missing. */
  lemma {:induction false} LoopStopsShort(src: Bytes, pos: nat, out: Bytes, io: seq<IoStep>)
    requires pos <= |src| && Plays(src, pos, io) && FullWrites(io)
    requires forall k :: 0 <= k < |io| ==> io[k].read >= 0
    requires Loop(src, pos, out, io).err < 0
    ensures |Loop(src, pos, out, io).out| < |out| + |src| - pos
    decreases |io|
  {
    if io[0].read > 0 && io[0].written >= 0 {
      var next := pos + io[0].read;
      LoopStopsShort(src, next, out + src[pos..next], io[1..]);
    }
  }

  /**
   * The code only checks `written < 0`. A copy that returns 0 equals its source exactly when no write was short:
   * the loop reports success for short writes and keeps the truncated result.
   */
  lemma CopyExactIff(src: Bytes, io: seq<IoStep>)
    requires Plays(src, 0, io) && Loop(src, 0, [], io).err == 0
    ensures Loop(src, 0, [], io).out == src <==> FullWrites(io)
  {
    if FullWrites(io) {
      var end := LoopAppendsPrefix(src, 0, [], io);
      assert [] + src[0..|src|] == src;
    } else {
      LoopLength(src, 0, [], io);
    }
  }

  /** A concrete short write that the code reports as success. */
  lemma ShortWriteIsReportedAsSuccess()
    ensures var io := [IoStep(2, 1), IoStep(0, 0)];
            Plays([7, 8], 0, io) && Loop([7, 8], 0, [], io) == LoopResult(0, [7])
  {
    var io := [IoStep(2, 1), IoStep(0, 0)];
    assert io[1..] == [IoStep(0, 0)];
    assert Plays([7, 8], 2, io[1..]);
  }

  // ---------------------------------------------------------------- the loop as the code runs it

  /** `kernel_write` at `pos` of `data`, for a position inside the file. */
  function WriteAt(data: Bytes, pos: nat, buf: Bytes): Bytes
    requires pos <= |data|
  {
    data[..pos] + buf + if pos + |buf| <= |data| then data[pos + |buf|..] else []
  }

  /** The `while` loop of `cowfs_shadow_copy_file` and of `cowfs_shadow_restore_file`, on an empty target. */
  method Transfer(src: Bytes, io: seq<IoStep>) returns (err: int, dst: Bytes)
    requires Plays(src, 0, io)
    ensures LoopResult(err, dst) == Loop(src, 0, [], io)
    ensures err == 0 ==> (dst == src <==> FullWrites(io))
    ensures FullWrites(io) ==> dst <= src
  {
    var srcPos, dstPos, step := 0, 0, 0;
    dst := [];
    err := 0;
    while true
      invariant srcPos <= |src| && step < |io| && dstPos == |dst|
      invariant Plays(src, srcPos, io[step..])
      invariant Loop(src, 0, [], io) == Loop(src, srcPos, dst, io[step..])
      decreases |src| - srcPos, |io| - step
    {
      var bytesRead := io[step].read;
      if bytesRead <= 0 {
        err := bytesRead;
        break;
      }
      var buf := src[srcPos..srcPos + bytesRead];
      srcPos := srcPos + bytesRead;
      var written := io[step].written;
      if written < 0 {
        err := written;
        break;
      }
      assert buf[..written] == src[srcPos - bytesRead..srcPos - bytesRead + written];
      assert WriteAt(dst, dstPos, buf[..written]) == dst + buf[..written];
      assert io[step..][1..] == io[step + 1..];
      dst := WriteAt(dst, dstPos, buf[..written]);
      dstPos := dstPos + written;
      step := step + 1;
    }
    if err == 0 {
      CopyExactIff(src, io);
    }
    if FullWrites(io) {
      var end := LoopAppendsPrefix(src, 0, [], io);
    }
  }

  // ---------------------------------------------------------------- whole calls

  /** What the surroundings decide during `cowfs_shadow_copy_file`; zero means the call succeeded. */
  datatype CopyEnv = CopyEnv(cred: bool, srcErr: int, dstErr: int, buf: bool, io: seq<IoStep>)

  predicate CopyLegal(src: Bytes, env: CopyEnv) {
    env.srcErr <= 0 && env.dstErr <= 0 && Plays(src, 0, env.io)
  }

  /** Error number, and the shadow file if the call got as far as creating it. */
  function Copy(src: Bytes, env: CopyEnv): (int, Option<Bytes>)
    requires CopyLegal(src, env)
  {
    if !env.cred then (ENOMEM, None)
    else if env.srcErr < 0 then (env.srcErr, None)
    else if env.dstErr < 0 then (env.dstErr, None)
    else if !env.buf then (ENOMEM, Some([]))
    else var r := Loop(src, 0, [], env.io); (r.err, Some(r.out))
  }

  /** What the surroundings decide during `cowfs_shadow_restore_file`. */
  datatype RestoreEnv = RestoreEnv(cred: bool, srcErr: int, dstErr: int, truncErr: int, buf: bool, io: seq<IoStep>)

  predicate RestoreLegal(saved: Option<Bytes>, env: RestoreEnv) {
    && env.srcErr <= 0 && env.dstErr <= 0 && env.truncErr <= 0
    && (saved.Some? ==> Plays(saved.value, 0, env.io))
  }

  /** Error number and the new content of the target; `saved` is the shadow file, None if it does not exist. */
  function Restore(saved: Option<Bytes>, target: Bytes, env: RestoreEnv): (int, Bytes)
    requires RestoreLegal(saved, env)
  {
    if !env.cred then (ENOMEM, target)
    else if saved.None? then (ENOENT, target)
    else if env.srcErr < 0 then (env.srcErr, target)
    else if env.dstErr < 0 then (env.dstErr, target)
    else if env.truncErr < 0 then (env.truncErr, target)
    else if !env.buf then (ENOMEM, [])
    else var r := Loop(saved.value, 0, [], env.io); (r.err, r.out)
  }

  /** No read and no write of the loop failed. */
  predicate NoFailure(io: seq<IoStep>) {
    forall k :: 0 <= k < |io| ==> io[k].read >= 0 && (io[k].read > 0 ==> io[k].written >= 0)
  }

  lemma {:induction false} LoopSucceedsIff(src: Bytes, pos: nat, out: Bytes, io: seq<IoStep>)
    requires pos <= |src| && Plays(src, pos, io)
    ensures Loop(src, pos, out, io).err == 0 <==> NoFailure(io)
    decreases |io|
  {
    var n, w := io[0].read, io[0].written;
    if n > 0 && w >= 0 {
      LoopSucceedsIff(src, pos + n, out + src[pos..pos + w], io[1..]);
      assert forall k :: 1 <= k < |io| ==> io[k] == io[1..][k - 1];
      assert forall k :: 0 <= k < |io[1..]| ==> io[1..][k] == io[k + 1];
    }
  }

  /**
   * A copy returns 0 exactly when nothing in it failed. It leaves a file exactly when both files could be opened, with
   * as many bytes as the writes stored.
   */
  lemma CopyResult(src: Bytes, env: CopyEnv)
    requires CopyLegal(src, env)
    ensures Copy(src, env).0 == 0 <==> env.cred && env.srcErr == 0 && env.dstErr == 0 && env.buf && NoFailure(env.io)
    ensures Copy(src, env).1.Some? <==> env.cred && env.srcErr == 0 && env.dstErr == 0
    ensures Copy(src, env).1.Some? ==> |Copy(src, env).1.value| == if env.buf then Moved(env.io) else 0
  {
    LoopSucceedsIff(src, 0, [], env.io);
    LoopMoved(src, 0, [], env.io);
  }

  /**
   * A restore returns 0 exactly when there is a shadow file and nothing failed. Once it has truncated its target, that
   * holds as many bytes as the writes stored; before that it is untouched.
   */
  lemma RestoreResult(saved: Option<Bytes>, target: Bytes, env: RestoreEnv)
    requires RestoreLegal(saved, env)
    ensures Restore(saved, target, env).0 == 0
       <==> env.cred && saved.Some? && env.srcErr == 0 && env.dstErr == 0 && env.truncErr == 0 && env.buf
            && NoFailure(env.io)
    ensures var after := Restore(saved, target, env).1;
      if env.cred && saved.Some? && env.srcErr == 0 && env.dstErr == 0 && env.truncErr == 0
      then |after| == if env.buf then Moved(env.io) else 0
      else after == target
  {
    if saved.Some? {
      LoopSucceedsIff(saved.value, 0, [], env.io);
      LoopMoved(saved.value, 0, [], env.io);
    }
  }

  /** A copy that returns 0 made the shadow file, with the source's bytes exactly when no write was short. */
  lemma CopySucceeds(src: Bytes, env: CopyEnv)
    requires CopyLegal(src, env) && Copy(src, env).0 == 0
    ensures Copy(src, env).1.Some?
    ensures Copy(src, env).1.value == src <==> FullWrites(env.io)
  {
    CopyExactIff(src, env.io);
  }

  /** A restore that returns 0 gives the saved bytes whatever the target held, exactly when no write was short. */
  lemma RestoreSucceeds(saved: Option<Bytes>, target: Bytes, env: RestoreEnv)
    requires RestoreLegal(saved, env) && Restore(saved, target, env).0 == 0
    ensures saved.Some?
    ensures Restore(saved, target, env).1 == saved.value <==> FullWrites(env.io)
  {
    CopyExactIff(saved.value, env.io);
  }

  /** How many bytes the loop stores before it stops. */
  function Moved(io: seq<IoStep>): int {
    if io == [] || io[0].read <= 0 || io[0].written < 0 then 0 else io[0].written + Moved(io[1..])
  }

  /** The target grows by that many bytes, and by exactly the rest of the source if there are as many as that has. */
  lemma {:induction false} LoopMoved(src: Bytes, pos: nat, out: Bytes, io: seq<IoStep>)
    requires pos <= |src| && Plays(src, pos, io)
    ensures 0 <= Moved(io) <= |src| - pos
    ensures |Loop(src, pos, out, io).out| == |out| + Moved(io)
    ensures Moved(io) == |src| - pos <==> Loop(src, pos, out, io).out == out + src[pos..]
    decreases |io|
  {
    var n, w := io[0].read, io[0].written;
    if n > 0 && w >= 0 {
      LoopMoved(src, pos + n, out + src[pos..pos + w], io[1..]);
      if Moved(io) == |src| - pos {
        assert out + src[pos..pos + n] + src[pos + n..] == out + src[pos..];
      }
    } else if pos == |src| {
      assert out + src[pos..] == out;
    }
  }

  /** The restore gets through to the end, or there was nothing left for it to do. */
  predicate Delivers(saved: Bytes, target: Bytes, env: RestoreEnv) {
    if env.cred && env.srcErr == 0 && env.dstErr == 0 && env.truncErr == 0
    then if env.buf then Moved(env.io) == |saved| else saved == []
    else target == saved
  }

  /**
   * Whatever a restore returns, and whatever reads fail or writes are short on the way: the target holds the saved
   * bytes afterwards exactly when the loop was reached and stored as many bytes as were saved, or when that many were
   * none, or when nothing was touched and they were there already.
   */
  lemma RestoreExactIff(saved: Bytes, target: Bytes, env: RestoreEnv)
    requires RestoreLegal(Some(saved), env)
    ensures Restore(Some(saved), target, env).1 == saved <==> Delivers(saved, target, env)
  {
    LoopMoved(saved, 0, [], env.io);
    assert [] + saved[0..] == saved;
  }

  /** Copy, then anything at all to the target, then restore: the source's bytes are back. */
  lemma CopyRestoreRoundTrip(src: Bytes, copy: CopyEnv, target: Bytes, restore: RestoreEnv)
    requires CopyLegal(src, copy) && Copy(src, copy).0 == 0 && FullWrites(copy.io)
    requires RestoreLegal(Copy(src, copy).1, restore) && FullWrites(restore.io)
    requires Restore(Copy(src, copy).1, target, restore).0 == 0
    ensures Restore(Copy(src, copy).1, target, restore).1 == src
  {
    CopySucceeds(src, copy);
    RestoreSucceeds(Copy(src, copy).1, target, restore);
  }

  /** A restore that fails leaves the target as it was, or a prefix of the saved bytes. */
  lemma FailedRestoreLeavesPrefix(saved: Option<Bytes>, target: Bytes, env: RestoreEnv)
    requires RestoreLegal(saved, env) && FullWrites(env.io)
    ensures Restore(saved, target, env).0 <= 0
    ensures var after := Restore(saved, target, env).1;
            after == target || (saved.Some? && after <= saved.value)
  {
    if saved.Some? {
      var end := LoopAppendsPrefix(saved.value, 0, [], env.io);
    }
  }
}
