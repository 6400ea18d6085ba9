/** The nodes of the virtual file system (filesystem.h). */
module FileSystem {
  import opened CTypes

  const FS_FILE := 1
  const FS_DIR := 2
  const NAME_MAX := 128

  /** What a node's function pointers can hold: null, or one of initrd.c's three callbacks. */
  datatype Callback = Null | InitrdRead | InitrdReaddir | InitrdFinddir

  class FsNode {
    const name: array<byte>
    var mask: u32
    var uid: u32
    var gid: u32
    var flags: u32
    var inode: u32
    var length: u32
    var impl: u32
    var readCb: Callback
    var writeCb: Callback
    var openCb: Callback
    var closeCb: Callback
    var readdirCb: Callback
    var finddirCb: Callback
    var ptr: FsNode?

    /** `malloc(sizeof(fs_node_t))`: fresh memory, all zero. */
    constructor ()
      ensures fresh(name) && name.Length == NAME_MAX
      ensures forall k :: 0 <= k < NAME_MAX ==> name[k] == 0
      ensures length == 0 && flags == 0 && inode == 0
      ensures readCb == writeCb == openCb == closeCb == readdirCb == finddirCb == Null && ptr == null
    {
      name := new byte[NAME_MAX](_ => 0);
      mask, uid, gid, flags, inode, length, impl := 0, 0, 0, 0, 0, 0, 0;
      readCb, writeCb, openCb, closeCb, readdirCb, finddirCb := Null, Null, Null, Null, Null, Null;
      ptr := null;
    }

    /** The field assignments by which initrd.c fills in a node; all other fields become 0. */
    method Fill(flags: u32, inode: u32, length: u32, read: Callback, readdir: Callback, finddir: Callback)
      modifies this
      ensures this.flags == flags && this.inode == inode && this.length == length
      ensures readCb == read && readdirCb == readdir && finddirCb == finddir
      ensures writeCb == openCb == closeCb == Null && mask == uid == gid == impl == 0
      ensures ptr == old(ptr)
    {
      mask, uid, gid, impl := 0, 0, 0, 0;
      this.inode, this.length, this.flags := inode, length, flags;
      writeCb, openCb, closeCb := Null, Null, Null;
      readCb, readdirCb, finddirCb := read, readdir, finddir;
    }

    /** `(flags & 0x7) == FS_DIR` */
    predicate IsDir()
      reads this
    {
      flags % 8 == FS_DIR
    }
  }

  class Dirent {
    const name: array<byte>
    var ino: u32

    constructor ()
      ensures fresh(name) && name.Length == NAME_MAX
    {
      name := new byte[NAME_MAX](_ => 0);
      ino := 0;
    }
  }
}
