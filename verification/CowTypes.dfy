/** Data shared by every part of the model: the version record and the constants of the code. */
module CowTypes {

  const MAX_VERSIONS: nat := 64
  const IOC_MAX_VERSIONS: nat := 32
  const HASH_BUCKETS: nat := 256
  const COPY_BUF_SIZE: nat := 64 * 1024
  const PATH_BUF_SIZE: nat := 256
  const NSEC_PER_SEC: nat := 1_000_000_000
  const U64_RANGE: nat := 0x1_0000_0000_0000_0000

  // Kernel error numbers, as the code returns them.
  const ENOENT: int := -2
  const ENOMEM: int := -12
  const EEXIST: int := -17
  const EINVAL: int := -22

  type byte = b: int | 0 <= b < 256
  type Bytes = seq<byte>

  datatype Option<+T> = None | Some(value: T)

  datatype Op = OpWrite | OpUnlink | OpRename | OpSetattr

  /** The part of `struct kstat` that a rollback reads back. */
  datatype Stat = Stat(uid: nat, gid: nat, mode: bv16)

  /** `struct cow_version`; it never changes once it is on a list, so it is a value. */
  datatype Version = Version(ts: nat, op: Op, path: string, name: string, stat: Stat, hasData: bool)
}
