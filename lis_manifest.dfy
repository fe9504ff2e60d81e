/**
 * `Manifest::new` of src/lis-proto-1/manifest.rs: the inode table a fresh
 * mount starts with, holding only the root directory.
 *
 * The two `AtomicU64` counters are plain fields. `Manifest::new` returns an
 * error only when `Object::new` does, which it never does for a
 * directory, so the constructor always succeeds. Saving and loading the
 * manifest as JSON is file I/O and is not part of this model.
 */
module LisManifest {
  import opened Paths
  import opened Wrappers
  import opened Fuse
  import opened LisObject

  /** The root's path, "/". */
  const RootPath: Path := [RootDir]

  /** The root's inode. */
  const RootIno: nat := 1

  class Manifest {
    var manifestPath: Path
    var rootDocId: string
    /** Inode to object. */
    var objects: map<nat, Object>
    /** Path to inode. */
    var inodes: map<Path, nat>
    /** The next inode and file handle to hand out. */
    var curIno: nat
    var curFh: nat

    /**
     * The two tables are inverse to each other, each object is filed
     * under its own path, and the next inode is above every inode in use.
     */
    ghost predicate Indexed()
      reads this
    {
      (forall p :: p in inodes ==> inodes[p] in objects && objects[inodes[p]].fullPath == p) &&
      (forall i :: i in objects ==> objects[i].fullPath in inodes && inodes[objects[i].fullPath] == i) &&
      (forall i :: i in objects ==> i < curIno)
    }

    /**
     * `Manifest::new(manifest_path, doc_id)`: the root directory takes the
     * first inode (1, by `fetch_add`), with the default directory mode and
     * the process's ids, and is filed under "/"; inodes continue from 2 and
     * file handles from 1.
     */
    constructor (manifestPath: Path, docId: string, processUid: nat, processGid: nat)
      ensures this.manifestPath == manifestPath && rootDocId == docId
      ensures objects == map[RootIno := NewObject(RootPath, RootIno, Directory, None, None, None, None, processUid, processGid)]
      ensures inodes == map[RootPath := RootIno]
      ensures curIno == 2 && curFh == 1
      ensures Indexed()
      ensures objects[RootIno].attrs.kind == Directory && objects[RootIno].attrs.hardlinks == 2
      ensures objects[RootIno].attrs.mode == DefaultDirMode && objects[RootIno].attrs.size == BlockSize
    {
      var ino: nat := 1;
      var fh: nat := 1;
      var rootIno := ino;
      ino := ino + 1;
      var root := NewObject(RootPath, rootIno, Directory, None, None, None, None, processUid, processGid);
      this.manifestPath := manifestPath;
      rootDocId := docId;
      objects := map[1 := root];
      inodes := map[RootPath := 1];
      curIno := ino;
      curFh := fh;
    }
  }
}
