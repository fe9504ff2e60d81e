/**
 * `Object::new` of src/lis-proto-1/object.rs: the attributes a new file or
 * directory starts with.
 *
 * Its three timestamps are clock readings and are not part of
 * `InodeAttributes` here. The user and group ids that the process runs as
 * (`getuid()`, `getgid()`) are parameters. `Object::new` never returns an
 * error; the `Result` it is declared with is left out.
 */
module LisObject {
  import opened Wrappers
  import opened Paths
  import opened Fuse

  /** The default modes, 0o744 for a file and 0o755 for a directory. */
  const DefaultFileMode: bv16 := 0x1E4
  const DefaultDirMode: bv16 := 0x1ED

  /** `Object`: an absolute path and the inode's attributes. */
  datatype Object = Object(fullPath: Path, attrs: InodeAttributes)

  /**
   * `Object::new(full_path, inode, kind, size, mode, uid, gid)`. A file takes
   * the size asked for (else 0), the mode asked for (else 0o744) and one
   * link; a directory is one block long whatever size is asked for, takes
   * the mode asked for (else 0o755) and two links, its own entry and ".".
   * Ids not given are the process's own. A symbolic link is not
   * implemented and panics.
   */
  function NewObject(fullPath: Path, inode: nat, kind: FileKind, size: Option<nat>, mode: Option<bv16>,
                     uid: Option<nat>, gid: Option<nat>, processUid: nat, processGid: nat): (r: Object)
    requires kind != Symlink
    ensures r.fullPath == fullPath && r.attrs.inode == inode && r.attrs.kind == kind
    ensures r.attrs.openFileHandles == 0 && r.attrs.xattrs == map[]
    ensures kind == File ==> r.attrs.size == size.UnwrapOr(0) && r.attrs.mode == mode.UnwrapOr(DefaultFileMode) && r.attrs.hardlinks == 1
    ensures kind == Directory ==> r.attrs.size == BlockSize && r.attrs.mode == mode.UnwrapOr(DefaultDirMode) && r.attrs.hardlinks == 2
    ensures r.attrs.uid == uid.UnwrapOr(processUid) && r.attrs.gid == gid.UnwrapOr(processGid)
  {
    var attrs := match kind
      case File =>
        InodeAttributes(inode, 0, size.UnwrapOr(0), kind, mode.UnwrapOr(DefaultFileMode), 1,
                        uid.UnwrapOr(processUid), gid.UnwrapOr(processGid), map[])
      case Directory =>
        InodeAttributes(inode, 0, BlockSize, kind, mode.UnwrapOr(DefaultDirMode), 2,
                        uid.UnwrapOr(processUid), gid.UnwrapOr(processGid), map[]);
    Object(fullPath, attrs)
  }

  /**
   * Under `check_access`, a file made with the default mode can be read,
   * written and executed by its owner and only read by everyone else.
   */
  lemma DefaultFileAccess(path: Path, inode: nat, size: Option<nat>, owner: nat, group: nat, uid: nat, gid: nat)
    requires uid != 0
    ensures var a := NewObject(path, inode, File, size, None, Some(owner), Some(group), 0, 0).attrs;
            CheckAccess(a.uid, a.gid, a.mode, uid, gid, ROk) &&
            (CheckAccess(a.uid, a.gid, a.mode, uid, gid, WOk) <==> uid == owner) &&
            (CheckAccess(a.uid, a.gid, a.mode, uid, gid, XOk) <==> uid == owner)
  {
  }

  /**
   * A directory made with the default mode can be listed and searched by
   * everyone, and written only by its owner.
   */
  lemma DefaultDirAccess(path: Path, inode: nat, owner: nat, group: nat, uid: nat, gid: nat)
    requires uid != 0
    ensures var a := NewObject(path, inode, Directory, None, None, Some(owner), Some(group), 0, 0).attrs;
            CheckAccess(a.uid, a.gid, a.mode, uid, gid, ROk | XOk) &&
            (CheckAccess(a.uid, a.gid, a.mode, uid, gid, WOk) <==> uid == owner)
  {
  }

  /** A directory's size is one block, whatever size the caller passes. */
  lemma DirectorySizeIgnored(path: Path, inode: nat, s1: Option<nat>, s2: Option<nat>, mode: Option<bv16>,
                             uid: Option<nat>, gid: Option<nat>, pu: nat, pg: nat)
    ensures NewObject(path, inode, Directory, s1, mode, uid, gid, pu, pg) == NewObject(path, inode, Directory, s2, mode, uid, gid, pu, pg)
  {
  }
}
