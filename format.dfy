/** The lcfs blob as seen by the reader in tools/dump.c.

    A blob is a fixed-size header followed by the data area. Every reference
    inside the data area is a byte offset relative to the start of the data
    area. The byte layout of the fixed-size records (header, inode, directory
    header, extended-attribute header, backing descriptor) and the two table
    size functions `lcfs_dir_size` / `lcfs_xattr_header_size` belong to lcfs.h,
    which is not part of this model: they are parameters of every operation,
    gathered in `Layout`. The variable-size byte runs (names, keys, values,
    strings) are sliced concretely.

    The C reader performs no bounds checks; here every read returns
    `Err(OutOfBounds)` when it would leave the data area. */
module Format {

  type Bytes = seq<bv8>

  /** Why a traversal did not produce a result. */
  datatype Error =
    | OutOfBounds  // a record or byte run would extend past the end of the data area
    | NotFound     // a path component was not found (ENOENT)
    | TooDeep      // the directory walk exceeded its depth budget

  datatype Res<+T> = Ok(value: T) | Err(error: Error) {
    predicate IsFailure() { Err? }
    function PropagateFailure<U>(): Res<U>
      requires Err?
    {
      Err(error)
    }
    function Extract(): T
      requires Ok?
    {
      value
    }
  }

  /** struct lcfs_vdata_s: an (offset, length) reference into the data area. */
  datatype VRef = VRef(off: nat, len: nat)

  /** struct lcfs_inode_s. In C `dir`, `payload` and `backing` are members of
      one union `u`; the model keeps them as separate fields and relies on no
      relation between them. */
  datatype Inode = Inode(
    mode: bv32,
    nlink: nat,
    uid: nat,
    gid: nat,
    xattrs: VRef,
    dir: VRef,
    payload: VRef,
    backing: VRef)

  /** One element of `lcfs_dir_s.dentries`. */
  datatype Dentry = Dentry(inodeIndex: nat, nameLen: nat)

  /** One element of `lcfs_xattr_header_s.attr`. */
  datatype XattrEntry = XattrEntry(keyLen: nat, valueLen: nat)

  /** The fixed part of struct lcfs_backing_s; its payload bytes follow it. */
  datatype Backing = Backing(stSize: nat, payloadLen: nat)

  /** The parts of the format defined in lcfs.h. Record decoders receive the
      bytes starting at the record's offset; `dirAt` and `xattrsAt` return the
      table's entry array, whose length is the decoded entry count. */
  datatype Layout = Layout(
    headerSize: nat,               // sizeof(struct lcfs_header_s)
    inodeSize: nat,                // sizeof(struct lcfs_inode_s)
    backingSize: nat,              // offset of `payload` in struct lcfs_backing_s
    dirSize: nat -> nat,           // lcfs_dir_size(n_dentries)
    xattrHeaderSize: nat -> nat,   // lcfs_xattr_header_size(n_attr)
    inodeAt: Bytes -> Inode,
    dirAt: Bytes -> seq<Dentry>,
    xattrsAt: Bytes -> seq<XattrEntry>,
    backingAt: Bytes -> Backing)

  // File-type bits of st_mode (octal 0170000, 0040000, 0120000).
  const S_IFMT: bv32 := 0xF000
  const S_IFDIR: bv32 := 0x4000
  const S_IFLNK: bv32 := 0xA000

  /** size_t on the 64-bit targets the tool is built for. */
  const SIZE_T_MOD: nat := 0x1_0000_0000_0000_0000
  const SIZE_MAX: nat := SIZE_T_MOD - 1
  /** Largest st_size an off_t can hold. */
  const OFF_T_LIMIT: nat := 0x8000_0000_0000_0000

  predicate IsDir(ino: Inode) {
    ino.mode & S_IFMT == S_IFDIR
  }

  predicate IsSymlink(ino: Inode) {
    ino.mode & S_IFMT == S_IFLNK
  }

  /** The classification looks at the file-type bits only. */
  lemma ClassifyByTypeBits(ino: Inode, perm: bv32)
    requires perm & S_IFMT == 0
    ensures IsDir(ino.(mode := ino.mode | perm)) == IsDir(ino)
    ensures IsSymlink(ino.(mode := ino.mode | perm)) == IsSymlink(ino)
    ensures !(IsDir(ino) && IsSymlink(ino))
  {
  }

  /** get_vdata: the data area is everything after the header. */
  function GetVdata(L: Layout, blob: Bytes): (v: Bytes)
    requires L.headerSize <= |blob|
    ensures |v| + L.headerSize == |blob|
    ensures forall i :: 0 <= i < |v| ==> v[i] == blob[L.headerSize + i]
  {
    blob[L.headerSize..]
  }

  /** The root inode offset computed in `main` from the file size, in size_t
      arithmetic (a file shorter than header plus inode wraps around). */
  function RootIndex(L: Layout, fileSize: nat): (r: nat)
    requires fileSize < OFF_T_LIMIT
    requires L.headerSize + L.inodeSize < OFF_T_LIMIT
    ensures r < SIZE_T_MOD
    ensures L.headerSize + L.inodeSize <= fileSize ==> r + L.inodeSize + L.headerSize == fileSize
    ensures fileSize < L.headerSize + L.inodeSize ==> r >= SIZE_T_MOD - L.headerSize - L.inodeSize
  {
    (fileSize - L.headerSize - L.inodeSize) % SIZE_T_MOD
  }

  /** Reads the inode record at `off`. */
  function ReadInode(L: Layout, v: Bytes, off: nat): (r: Res<Inode>)
    ensures r.Ok? <==> off + L.inodeSize <= |v|
    ensures r.Ok? ==> r.value == L.inodeAt(v[off..off + L.inodeSize])
    ensures r.Err? ==> r.error == OutOfBounds
  {
    if off + L.inodeSize <= |v| then Ok(L.inodeAt(v[off..off + L.inodeSize])) else Err(OutOfBounds)
  }

  /** Reads the entry array of the directory table at `off`; the table header
      spans `lcfs_dir_size(n_dentries)` bytes. */
  function ReadDir(L: Layout, v: Bytes, off: nat): (r: Res<seq<Dentry>>)
    ensures r.Ok? <==> off <= |v| && off + L.dirSize(|L.dirAt(v[off..])|) <= |v|
    ensures r.Ok? ==> r.value == L.dirAt(v[off..])
    ensures r.Err? ==> r.error == OutOfBounds
  {
    if off > |v| then Err(OutOfBounds)
    else
      var es := L.dirAt(v[off..]);
      if off + L.dirSize(|es|) <= |v| then Ok(es) else Err(OutOfBounds)
  }

  /** Reads the attribute array of the extended-attribute table at `off`; the
      table header spans `lcfs_xattr_header_size(n_attr)` bytes. */
  function ReadXattrHeader(L: Layout, v: Bytes, off: nat): (r: Res<seq<XattrEntry>>)
    ensures r.Ok? <==> off <= |v| && off + L.xattrHeaderSize(|L.xattrsAt(v[off..])|) <= |v|
    ensures r.Ok? ==> r.value == L.xattrsAt(v[off..])
    ensures r.Err? ==> r.error == OutOfBounds
  {
    if off > |v| then Err(OutOfBounds)
    else
      var attrs := L.xattrsAt(v[off..]);
      if off + L.xattrHeaderSize(|attrs|) <= |v| then Ok(attrs) else Err(OutOfBounds)
  }

  /** Reads the fixed part of the backing descriptor at `off`. */
  function ReadBacking(L: Layout, v: Bytes, off: nat): (r: Res<Backing>)
    ensures r.Ok? <==> off + L.backingSize <= |v|
    ensures r.Ok? ==> r.value == L.backingAt(v[off..off + L.backingSize])
    ensures r.Err? ==> r.error == OutOfBounds
  {
    if off + L.backingSize <= |v| then Ok(L.backingAt(v[off..off + L.backingSize])) else Err(OutOfBounds)
  }

  /** The `len` bytes at `off`, as `%.*s` and `memcmp` address them. */
  function Slice(v: Bytes, off: nat, len: nat): (r: Res<Bytes>)
    ensures r.Ok? <==> off + len <= |v|
    ensures r.Ok? ==> |r.value| == len && forall i :: 0 <= i < len ==> r.value[i] == v[off + i]
    ensures r.Err? ==> r.error == OutOfBounds
  {
    if off + len <= |v| then Ok(v[off..off + len]) else Err(OutOfBounds)
  }

  /** The root is the last inode-sized record of the data area: a blob large
      enough to hold a header and one inode always yields a readable root,
      made of the blob's final `inodeSize` bytes. */
  lemma RootIsLastInode(L: Layout, blob: Bytes)
    requires L.headerSize + L.inodeSize <= |blob| < OFF_T_LIMIT
    ensures RootIndex(L, |blob|) + L.inodeSize == |GetVdata(L, blob)|
    ensures ReadInode(L, GetVdata(L, blob), RootIndex(L, |blob|))
            == Ok(L.inodeAt(blob[|blob| - L.inodeSize..]))
  {
    var v := GetVdata(L, blob);
    var root := RootIndex(L, |blob|);
    assert v[root..root + L.inodeSize] == blob[|blob| - L.inodeSize..];
  }

  /** A blob too short for a header and an inode gives a wrapped-around root
      offset, which lies outside the data area (the C pointer addition there
      is undefined). */
  lemma ShortBlobHasNoRoot(L: Layout, blob: Bytes)
    requires L.headerSize <= |blob| < L.headerSize + L.inodeSize
    requires L.headerSize + L.inodeSize < OFF_T_LIMIT
    ensures ReadInode(L, GetVdata(L, blob), RootIndex(L, |blob|)) == Err(OutOfBounds)
  {
  }

  // ---- C strings ------------------------------------------------------

  predicate NoNul(s: Bytes) {
    forall i :: 0 <= i < |s| ==> s[i] != 0
  }

  /** `s` is the NUL-terminated string stored at `off`. */
  predicate NulTerminatedAt(v: Bytes, off: nat, s: Bytes) {
    && off + |s| < |v|
    && v[off..off + |s|] == s
    && v[off + |s|] == 0
    && NoNul(s)
  }

  /** `s` is what strndup copies from `off` with limit `n`: the bytes up to the
      first NUL, but never more than `n` of them. */
  predicate TruncatedAt(v: Bytes, off: nat, n: nat, s: Bytes) {
    && |s| <= n
    && (forall i :: 0 <= i < |s| ==> off + i < |v| && v[off + i] == s[i])
    && NoNul(s)
    && (|s| == n || (off + |s| < |v| && v[off + |s|] == 0))
  }

  /** No NUL byte between `off` and the end of the data area. */
  predicate NoNulFrom(v: Bytes, off: nat) {
    forall i :: off <= i < |v| ==> v[i] != 0
  }

  /** strdup of the string at `off`. */
  function CString(v: Bytes, off: nat): (r: Res<Bytes>)
    decreases |v| - off
    ensures r.Ok? ==> NulTerminatedAt(v, off, r.value)
    ensures r.Err? <==> NoNulFrom(v, off)
    ensures r.Err? ==> r.error == OutOfBounds
  {
    if off >= |v| then Err(OutOfBounds)
    else if v[off] == 0 then Ok([])
    else
      match CString(v, off + 1)
      case Ok(s) => Ok([v[off]] + s)
      case Err(e) => Err(e)
  }

  /** strndup of at most `n` bytes at `off`. */
  function StrN(v: Bytes, off: nat, n: nat): (r: Res<Bytes>)
    decreases n
    ensures r.Ok? ==> TruncatedAt(v, off, n, r.value)
    ensures r.Err? <==> 0 < n && |v| < off + n && NoNulFrom(v, off)
    ensures r.Err? ==> r.error == OutOfBounds
  {
    if n == 0 then Ok([])
    else if off >= |v| then Err(OutOfBounds)
    else if v[off] == 0 then Ok([])
    else
      match StrN(v, off + 1, n - 1)
      case Ok(s) => Ok([v[off]] + s)
      case Err(e) => Err(e)
  }
}
