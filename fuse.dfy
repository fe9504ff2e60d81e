/**
 * The permission and attribute helpers of src/fuse.rs, with the constants of
 * src/prelude.rs and the Linux values of the libc constants they use.
 *
 * Class selection follows IEEE Std 1003.1 (POSIX.1-2017), Base Definitions,
 * section 4.5 "File Access Permissions": the owner class when the user id
 * matches, else the group class when the group id matches, else the other
 * class, and only that one class is consulted.
 */
module Fuse {
  import opened Bytes

  /** `BLOCK_SIZE`. */
  const BlockSize: nat := 512

  const U64Max: nat := 0xFFFF_FFFF_FFFF_FFFF

  /** `FILE_HANDLE_READ_BIT` and `FILE_HANDLE_WRITE_BIT`: the top two bits of a handle. */
  const FileHandleReadBit: bv64 := 1 << 63
  const FileHandleWriteBit: bv64 := 1 << 62

  /** `S_ISUID`, `S_ISGID` and `S_IXGRP` (0o4000, 0o2000 and 0o010). */
  const SetUid: bv16 := 0x800
  const SetGid: bv16 := 0x400
  const GroupExec: bv16 := 0x8

  /** The `access` mask bits `F_OK`, `R_OK`, `W_OK` and `X_OK`. */
  const FOk: bv32 := 0
  const ROk: bv32 := 4
  const WOk: bv32 := 2
  const XOk: bv32 := 1

  /** `FileKind`. */
  datatype FileKind = File | Directory | Symlink

  /**
   * `InodeAttributes`, less its three timestamps. User and group ids are
   * `u32`, the mode a `u16`.
   */
  datatype InodeAttributes = InodeAttributes(
    inode: nat,
    openFileHandles: nat,
    size: nat,
    kind: FileKind,
    mode: bv16,
    hardlinks: nat,
    uid: nat,
    gid: nat,
    xattrs: map<seq<Byte>, seq<Byte>>)

  /** `creation_gid(parent, gid)`: a set-group-id directory hands its group to what is created in it. */
  function CreationGid(parent: InodeAttributes, gid: nat): (r: nat)
    ensures parent.mode & SetGid != 0 ==> r == parent.gid
    ensures parent.mode & SetGid == 0 ==> r == gid
  {
    if parent.mode & SetGid != 0 then parent.gid else gid
  }

  /** `clear_suid_sgid` on the mode bits. */
  function ClearSuidSgid(mode: bv16): (r: bv16)
    ensures r & SetUid == 0
    ensures mode & GroupExec != 0 ==> r & SetGid == 0
    ensures mode & GroupExec == 0 ==> r & SetGid == mode & SetGid
    ensures r & !(SetUid | SetGid) == mode & !(SetUid | SetGid)
  {
    var m := mode & !SetUid;
    if m & GroupExec != 0 then m & !SetGid else m
  }

  /** `clear_suid_sgid(attrs)`: only the mode changes. */
  function ClearedAttrs(attrs: InodeAttributes): (r: InodeAttributes)
    ensures r == attrs.(mode := ClearSuidSgid(attrs.mode))
  {
    attrs.(mode := ClearSuidSgid(attrs.mode))
  }

  /** Clearing twice clears no more than clearing once. */
  lemma ClearSuidSgidIdempotent(mode: bv16)
    ensures ClearSuidSgid(ClearSuidSgid(mode)) == ClearSuidSgid(mode)
  {
  }

  /**
   * `check_access`, on the access mask as a 32-bit two's-complement word: it
   * subtracts from the mask the bits the consulted class grants and succeeds
   * when nothing is left.
   */
  function CheckAccess(fileUid: nat, fileGid: nat, fileMode: bv16, uid: nat, gid: nat, accessMask: bv32): (r: bool)
    ensures accessMask == FOk ==> r
  {
    if accessMask == FOk then true
    else
      var mode := fileMode as bv32;
      if uid == 0 then
        var m0 := accessMask & XOk;
        var m1 := m0 - (m0 & (mode >> 6));
        var m2 := m1 - (m1 & (mode >> 3));
        var m3 := m2 - (m2 & mode);
        m3 == 0
      else if uid == fileUid then accessMask - (accessMask & (mode >> 6)) == 0
      else if gid == fileGid then accessMask - (accessMask & (mode >> 3)) == 0
      else accessMask - (accessMask & mode) == 0
  }

  /** The permission classes of section 4.5 of POSIX.1-2017 Base Definitions. */
  datatype Class = OwnerClass | GroupClass | OtherClass

  /** The one class a non-root caller is judged by. */
  function ClassOf(fileUid: nat, fileGid: nat, uid: nat, gid: nat): Class
  {
    if uid == fileUid then OwnerClass else if gid == fileGid then GroupClass else OtherClass
  }

  /** The kinds of access a process can ask for. */
  datatype Access = Read | Write | Exec

  /** The mask bit that requests an access. */
  function RequestBit(q: Access): bv32
  {
    match q
    case Read => ROk
    case Write => WOk
    case Exec => XOk
  }

  /** The mode bit that grants an access to a class (S_IRUSR … S_IXOTH). */
  function PermissionBit(c: Class, q: Access): bv16
  {
    match (c, q)
    case (OwnerClass, Read) => 0x100
    case (OwnerClass, Write) => 0x80
    case (OwnerClass, Exec) => 0x40
    case (GroupClass, Read) => 0x20
    case (GroupClass, Write) => 0x10
    case (GroupClass, Exec) => 0x8
    case (OtherClass, Read) => 0x4
    case (OtherClass, Write) => 0x2
    case (OtherClass, Exec) => 0x1
  }

  /** Every access the mask requests is granted to the class by the mode. */
  predicate Granted(mode: bv16, c: Class, mask: bv32)
  {
    (mask & RequestBit(Read) != 0 ==> mode & PermissionBit(c, Read) != 0) &&
    (mask & RequestBit(Write) != 0 ==> mode & PermissionBit(c, Write) != 0) &&
    (mask & RequestBit(Exec) != 0 ==> mode & PermissionBit(c, Exec) != 0)
  }

  /**
   * For a caller other than root asking for read, write or execute access,
   * `check_access` grants exactly what the caller's one class is granted.
   */
  lemma CheckAccessPosix(fileUid: nat, fileGid: nat, mode: bv16, uid: nat, gid: nat, mask: bv32)
    requires uid != 0 && mask & !7 == 0
    ensures CheckAccess(fileUid, fileGid, mode, uid, gid, mask) <==> Granted(mode, ClassOf(fileUid, fileGid, uid, gid), mask)
  {
  }

  /**
   * Root may read and write anything; it may execute only when some execute
   * bit is set, whatever else it asks for.
   */
  lemma RootAccess(fileUid: nat, fileGid: nat, mode: bv16, gid: nat, mask: bv32)
    requires mask != FOk
    ensures CheckAccess(fileUid, fileGid, mode, 0, gid, mask) <==> mask & XOk == 0 || mode & 0x49 != 0
  {
  }

  /** An owner without a permission bit is refused, whatever the group and other bits grant. */
  lemma OwnerDenied(fileUid: nat, fileGid: nat, mode: bv16, gid: nat, q: Access)
    requires fileUid != 0 && mode & PermissionBit(OwnerClass, q) == 0
    ensures !CheckAccess(fileUid, fileGid, mode, fileUid, gid, RequestBit(q))
    ensures !CheckAccess(fileUid, fileGid, mode | 0x3F, fileUid, gid, RequestBit(q))
  {
  }

  /** `check_file_handle_read`: bit 63 is set, i.e. the handle is at least 2^63. */
  function CheckFileHandleRead(fileHandle: bv64): (r: bool)
    ensures r <==> fileHandle >= FileHandleReadBit
  {
    fileHandle & FileHandleReadBit != 0
  }

  /** `check_file_handle_write`: bit 62 is set, i.e. the low 63 bits are at least 2^62. */
  function CheckFileHandleWrite(fileHandle: bv64): (r: bool)
    ensures r <==> fileHandle & !FileHandleReadBit >= FileHandleWriteBit
  {
    fileHandle & FileHandleWriteBit != 0
  }

  /**
   * The two permission bits are independent of each other and of the low 62
   * bits, which carry the handle's number.
   */
  lemma HandleBits(number: bv64, read: bool, write: bool)
    requires number < FileHandleWriteBit
    ensures var fh := number | (if read then FileHandleReadBit else 0) | (if write then FileHandleWriteBit else 0);
            (CheckFileHandleRead(fh) <==> read) && (CheckFileHandleWrite(fh) <==> write) &&
            fh & (FileHandleWriteBit - 1) == number
  {
  }

  /**
   * The `blocks` of the `FileAttr` built from the attributes: the size in
   * 512-byte blocks, rounded up. The `u64` sum must not overflow.
   */
  function Blocks(size: nat): (b: nat)
    requires size + BlockSize - 1 <= U64Max
    ensures b * BlockSize >= size
    ensures b == 0 || (b - 1) * BlockSize < size
  {
    (size + BlockSize - 1) / BlockSize
  }

  /**
   * The attributes `write` stores after a successful write of `len` bytes at
   * `offset`: the size grows to cover the write and never shrinks, and the
   * set-user-id and set-group-id bits are cleared.
   */
  function AttrsAfterWrite(attrs: InodeAttributes, offset: nat, len: nat): (r: InodeAttributes)
    ensures r.size >= attrs.size && r.size >= offset + len
    ensures r.size == attrs.size || r.size == offset + len
    ensures r == attrs.(size := r.size, mode := ClearSuidSgid(attrs.mode))
  {
    var size := if offset + len > attrs.size then offset + len else attrs.size;
    ClearedAttrs(attrs.(size := size))
  }
}
