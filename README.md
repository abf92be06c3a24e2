# composefs blob reader, modelled in Dafny

This project models the read side of the composefs ("lcfs") blob format as
implemented by the `dump` tool in `tools/dump.c`. A blob is a fixed-size
header followed by a *data area*. Inodes, directory tables,
extended-attribute tables and backing descriptors all live in the data area
and refer to each other by byte offsets relative to its start. The tool:

- locates the root inode from the file size;
- classifies inodes as directories or symlinks by their file-type bits;
- reports a size and a payload per inode (`get_size`, `get_v_payload`);
- looks a name up in a directory table (`find_child`) and resolves a
  slash-separated path (`lookup`);
- dumps a tree in pre-order, or dumps the attribute pairs of one inode
  (`dump_dentry`).

Modules:

- `Format` (`format.dfy`): the data area as `seq<bv8>`, the records it
  holds, the bounds-checked readers, `get_vdata`, `is_dir`/`is_symlink`, the
  root offset, and `strdup`/`strndup` on the data area.
- `Report` (`report.dfy`): `get_size`, `get_v_payload` and the size and
  payload columns of the extended listing.
- `Lookup` (`lookup.dfy`):
  - `find_child`, as a method with the C loop and as a specification function;
  - `lookup`, as a method that tokenises like `strsep` and as a left fold of
    `find_child` over the path's non-empty components.
- `Dump` (`dump.dfy`): `dump_dentry` as a recursive method with the
  attribute loop and the children loop, proved equal to a specification
  function. Also the four modes of `main`.

The fixed-size record layouts and the two table-size functions come from
`lcfs.h`, which is not part of this model. Every operation therefore takes a
`Layout` value that supplies:

- the header, inode and backing-descriptor sizes;
- `lcfs_dir_size` and `lcfs_xattr_header_size`;
- decoders for the inode, directory-table, attribute-table and backing
  records.

The variable-length byte runs (names, keys, values, symlink targets,
payloads) are sliced concretely.

The C code performs no bounds checks. Here every read that would leave the
data area yields `Err(OutOfBounds)`. A path component that is not found
yields `Err(NotFound)`, the `ENOENT` of `lookup`. Output is a sequence of
`Out` events, not text:

- `Indent(rec)` is the `|` followed by `rec` dashes;
- `Name(name)` is the plain listing line;
- `Extended(record)` is the extended line;
- `Xattr(key, value)` is one `key -> value` line.

## Model

| member | source | states |
|---|---|---|
| Format.ClassifyByTypeBits | tools/dump.c:80-88 | Directory and symlink tests depend only on the `S_IFMT` bits of the mode, and no inode is both |
| Format.GetVdata | tools/dump.c:45-48 | The data area is the blob after the header: it is `sizeof(header)` shorter and its byte i is blob byte `header + i` |
| Format.RootIndex | tools/dump.c:255-256 | The root offset plus inode size plus header size is the file size. A file shorter than header plus inode wraps around in size_t to an offset of at least 2^64 − header − inode |
| Format.RootIsLastInode | tools/dump.c:255-256 | For a blob holding at least a header and one inode, the root record is readable and consists of the blob's last `sizeof(inode)` bytes |
| Format.ShortBlobHasNoRoot | tools/dump.c:255-256 | For a blob shorter than header plus inode, the wrapped root offset lies outside the data area (where the C pointer addition is undefined), so reading the root fails |
| Format.ReadInode | tools/dump.c:97 | Reading the inode at an offset succeeds exactly when the whole record lies in the data area, and the record is decoded from the bytes at that offset |
| Format.ReadDir | tools/dump.c:136-139 | The directory table read at an offset is the entry array decoded from the bytes there. The read succeeds exactly when the offset and the `lcfs_dir_size(n_dentries)`-byte header lie in the data area |
| Format.ReadXattrHeader | tools/dump.c:106-109 | The attribute table read at an offset is the attribute array decoded from the bytes there. The read succeeds exactly when the offset and the `lcfs_xattr_header_size(n_attr)`-byte header lie in the data area |
| Format.ReadBacking | tools/dump.c:59-60 | The backing descriptor is read exactly when its fixed part lies in the data area, and it is decoded from the bytes at that offset |
| Format.Slice | tools/dump.c:114-115 | A length-delimited run (`%.*s`, `memcmp`) has exactly `len` bytes, byte i being data byte `off + i`. It fails exactly when it would run past the data area |
| Format.CString | tools/dump.c:70 | `strdup` returns the NUL-free bytes before the first NUL at the offset. It fails exactly when no NUL follows the offset in the data area |
| Format.StrN | tools/dump.c:77 | `strndup` returns at most `n` bytes, stopping at the first NUL. It fails exactly when `n > 0`, the limit passes the end and no NUL is met |
| Report.GetSize | tools/dump.c:50-61 | A symlink has size 0. Any other inode reports the `st_size` of the backing record at `u.backing.off`, and fails only if that record runs past the data area |
| Report.GetVPayload | tools/dump.c:63-78 | A symlink's payload is the NUL-terminated string at `u.payload.off`. A file with `backing.len == 0` gives `""`. Otherwise the payload is the `strndup` of the backing payload limited to `payload_len`, and the read fails exactly when the backing record does not fit or a non-empty limit runs off the end with no NUL. No payload contains a NUL |
| Report.ExtendedReport | tools/dump.c:121-129 | A directory shows size 0 and payload `""` without reading anything. A symlink shows size 0 and its target. A regular file shows the backing record's `st_size` and its truncated payload, or `""` when `backing.len == 0`. For a non-directory the report fails exactly when its payload or its size cannot be read |
| Report.SizeIgnoresBackingLen | tools/dump.c:56-60 | The size reported for a regular file does not depend on `u.backing.len` |
| Lookup.FindChildSpec | tools/dump.c:159-163 | A non-directory, or a directory whose `dir.len` is 0, answers `SIZE_MAX` |
| Lookup.FindChild | tools/dump.c:152-179 | The scan with a running name cursor computes the find_child specification |
| Lookup.FindChildFirstMatch | tools/dump.c:168-174 | Entry i's name lies at the table start + `lcfs_dir_size(n)` + the sum of earlier `name_len`s. The answer is the `inode_index` of the first entry whose length and bytes both equal the query |
| Lookup.FindChildNoMatch | tools/dump.c:170-178 | When no entry matches, the answer is `SIZE_MAX` |
| Lookup.FindChildOutOfBounds | tools/dump.c:171-172 | An equal-length entry whose name runs past the data area, met before any match, makes the scan fail (memcmp would read out of bounds) |
| Lookup.SlashIndex | tools/dump.c:195 | The delimiter search of `strsep`: the index of the first `/`, or the length when there is none |
| Lookup.ComponentsAreNames | tools/dump.c:195-197 | Every component kept by the tokeniser is non-empty and contains no `/` |
| Lookup.ComponentsAppend | tools/dump.c:195-197 | A `/` splits a path into the components of either side |
| Lookup.LeadingSlash | tools/dump.c:195-197 | A leading `/` adds no component |
| Lookup.TrailingSlash | tools/dump.c:195-197 | A trailing `/` adds no component |
| Lookup.RepeatedSlash | tools/dump.c:195-197 | `//` inside a path counts as one `/` |
| Lookup.OnlySlashes | tools/dump.c:195-197 | A path of slashes only, including the empty path, has no components |
| Lookup.Strsep | tools/dump.c:195 | One `strsep` step yields the bytes up to the next `/` and the position after it. The path's components are that token (if non-empty) followed by the components of the rest |
| Lookup.Lookup | tools/dump.c:181-208 | The tokenising loop that skips empty tokens and stops with ENOENT on `SIZE_MAX` computes the lookup specification |
| Lookup.WalkAppend | tools/dump.c:194-204 | Folding find_child over two component lists in turn equals folding over their concatenation. A failure in the first list is final |
| Lookup.LookupOnlySlashes | tools/dump.c:187-188 | `"/"`, `""`, `"//"` and every other slash-only path resolve to the starting offset |
| Lookup.LookupIsWalk | tools/dump.c:187-207 | Every path, including the special-cased `"/"`, resolves as the left fold of find_child over its non-empty components |
| Lookup.LookupConcat | tools/dump.c:194-207 | Resolving `a/b` is resolving `b` from where `a` leads. So `a//b/`, `/a/b` and `a/b` resolve alike |
| Lookup.LookupStopsAtMissing | tools/dump.c:198-203 | Once a component is not found, the result is ENOENT whatever the later components are |
| Lookup.LookupThroughNonDir | tools/dump.c:159-160 | A path with a component below a non-directory resolves to ENOENT |
| Lookup.LookupOneName | tools/dump.c:198-207 | A single name resolves to the find_child answer, with `SIZE_MAX` turned into ENOENT |
| Dump.PairStep | tools/dump.c:111-116 | The key and value lengths are held as `uint32_t`, and the cursor advances by their 32-bit sum: the plain sum below 2^32, otherwise the sum minus 2^32 |
| Dump.WrappedPairStays | tools/dump.c:111-116 | A pair with lengths 0xFFFFFFFF and 1 does not move the cursor |
| Dump.NoWrapPairSum | tools/dump.c:116 | When no pair's lengths reach 2^32, the cursor advance over a table prefix is the sum of its key and value lengths |
| Dump.XattrsExact | tools/dump.c:104-118 | No attribute table prints nothing. Otherwise exactly `n_attr` pairs are printed in table order. Pair i's key starts at the table + `lcfs_xattr_header_size(n_attr)` + the 32-bit cursor advances of the earlier pairs, and its value follows the key. Printing fails exactly when some pair runs past the data area |
| Dump.DumpXattrs | tools/dump.c:105-117 | The attribute loop, with its `uint32_t` lengths and its running `data` cursor, computes exactly the pairs specified above |
| Dump.Dump | tools/dump.c:90-150 | Every successful dump starts with the inode's `Indent(rec)` line |
| Dump.DumpDentry | tools/dump.c:90-150 | The recursive method with its two loops computes the dump specification |
| Dump.ChildrenInOrder | tools/dump.c:139-146 | The children loop yields the children's dumps concatenated in table order, each under the name at the running `name_len` sum, one level deeper |
| Dump.BelowInOrder | tools/dump.c:131-146 | What is printed below a descended-into directory is its children's dumps in table order |
| Dump.DumpPreOrder | tools/dump.c:100-146 | A descended-into directory prints its own indentation and line first, then its children's subtrees in order (pre-order) |
| Dump.NoDescent | tools/dump.c:131 | Unless the inode is a directory, `recurse` is set and `dir.len != 0`, only the inode's own indentation and line are printed |
| Dump.DumpFuelMono | tools/dump.c:90-150 | A dump that succeeds within a depth budget is unchanged by a larger budget |
| Dump.Run | tools/dump.c:255-281 | In every mode the output starts with the indentation of the inode shown first |
| Dump.LookupModeShowsResolvedInode | tools/dump.c:261-270 | The lookup mode fails as the path resolution does. For a readable resolved inode it prints exactly one extended line: empty name, the inode's offset, mode, nlink, uid and gid, and the size and payload of the extended report. It fails only if that report fails |
| Dump.XattrsModeShowsResolvedInode | tools/dump.c:271-280 | The xattrs mode fails as the path resolution does. Otherwise it prints exactly the resolved inode's attribute pairs |
| Dump.ShortBlobFails | tools/dump.c:255-281 | A file shorter than header plus inode gives no output in any mode |

## Left out

- Process plumbing: argv parsing, the `error()` exits, `open`, `fstat` (`get_file_size`), `mmap` and `munmap`. `main` is modelled from the mapped bytes on (`Run`), and the command line becomes the `Command` value.
- Text formatting (`%o`, `%zu`, `%lu`, `%d`, `putchar`): each line is a structured event.
- Dump.XattrsExact: keys and values are exactly their 32-bit lengths of bytes. In the C code `%.*s` takes each length through an `(int)` cast. A length of 2^31 or more becomes a negative precision, and then the run is printed up to the first NUL. A run also stops early at an embedded NUL byte.
- Dump.DumpXattrs: the same simplification of `%.*s` and its `(int)` precision as `Dump.XattrsExact`.
- Dump.Dump: names are carried as exactly `name_len` bytes. The `(int)name_len` precision and the NUL stop of `%.*s` are not modelled, as for keys and values.
- `lcfs.h` is not part of this model. The struct layouts and the bodies of `lcfs_dir_size` and `lcfs_xattr_header_size` are parameters (`Layout`). The decoded record fields, except the `bv32` mode, are unbounded naturals: their integer widths are not modelled, except for the `uint32_t` copies of the attribute lengths in the attribute loop.
- `tools/lcfs/lcfs-writer.h` is not part of this model. It declares the writer and the node-tree operations but gives no bodies.
- Out-of-bounds reads: the C reads outside the data area without checks. The model turns every such read into `Err(OutOfBounds)` rather than reproducing undefined behaviour. Pointer arithmetic on offsets is modelled without size_t wrap-around, except for the root offset.
- Dump.Dump: the recursion is bounded by a depth budget (`fuel`), returning `Err(TooDeep)` when it runs out. The C code recurses without bound and does not terminate on a cyclic blob. `DumpFuelMono` shows that any sufficient budget gives the same result.
- Allocation failures of `strdup`/`strndup` in `get_v_payload`, and the `strdup` of the path in `lookup`, are not modelled. The frees are not modelled either.
- Lookup.Lookup: the path is a byte sequence assumed to contain no NUL byte, as a command-line argument cannot. `strsep`'s in-place overwriting of delimiters with NUL is modelled by positions into the unmodified path.
- Format.Inode: the C union `u` (`dir`, `payload`, `backing`) is modelled as three separate references. The model uses each only where the C code reads that member, and assumes no relation between them.
- Report.GetSize: reads the backing record at `u.backing.off` even when `u.backing.len` is 0, as the C code does. Whether the writer always stores a record there is not visible in this model.
