/** Size and payload reported for an inode by the extended dump
    (get_size, get_v_payload and their use in dump_dentry). */
module Report {
  import opened Format

  /** get_size: a symlink has size 0; any other inode reports `st_size` of
      the backing record at `u.backing.off`, read whatever `u.backing.len`. */
  function GetSize(L: Layout, v: Bytes, symlink: bool, ino: Inode): (r: Res<nat>)
    ensures symlink ==> r == Ok(0)
    ensures !symlink && r.Ok? ==>
              ino.backing.off + L.backingSize <= |v|
              && r.value == L.backingAt(v[ino.backing.off..ino.backing.off + L.backingSize]).stSize
    ensures r.Err? <==> !symlink && |v| < ino.backing.off + L.backingSize
  {
    if symlink then Ok(0)
    else
      var backing :- ReadBacking(L, v, ino.backing.off);
      Ok(backing.stSize)
  }

  /** get_v_payload: the symlink target (a NUL-terminated string at
      `u.payload.off`), nothing for a file without a backing record, and
      otherwise at most `payload_len` bytes of the backing record's payload. */
  function GetVPayload(L: Layout, v: Bytes, symlink: bool, ino: Inode): (r: Res<Bytes>)
    ensures r.Ok? ==> NoNul(r.value)
    ensures symlink && r.Ok? ==> NulTerminatedAt(v, ino.payload.off, r.value)
    ensures symlink ==> (r.Err? <==> NoNulFrom(v, ino.payload.off))
    ensures !symlink && ino.backing.len == 0 ==> r == Ok([])
    ensures !symlink && ino.backing.len != 0 && r.Ok? ==>
              var off := ino.backing.off;
              off + L.backingSize <= |v|
              && TruncatedAt(v, off + L.backingSize, L.backingAt(v[off..off + L.backingSize]).payloadLen, r.value)
    ensures !symlink && ino.backing.len != 0 ==>
              var off := ino.backing.off;
              (r.Err? <==> |v| < off + L.backingSize
                           || (var n := L.backingAt(v[off..off + L.backingSize]).payloadLen;
                               0 < n && |v| < off + L.backingSize + n && NoNulFrom(v, off + L.backingSize)))
  {
    if symlink then CString(v, ino.payload.off)
    else if ino.backing.len == 0 then Ok([])
    else
      var backing :- ReadBacking(L, v, ino.backing.off);
      StrN(v, ino.backing.off + L.backingSize, backing.payloadLen)
  }

  /** The size and payload columns of one extended-dump line. */
  datatype Shown = Shown(size: nat, payload: Bytes)

  /** What dump_dentry shows for an inode in extended mode: directories are
      reported with size 0 and an empty payload without reading anything. */
  function ExtendedReport(L: Layout, v: Bytes, ino: Inode): (r: Res<Shown>)
    ensures IsDir(ino) ==> r == Ok(Shown(0, []))
    ensures !IsDir(ino) && IsSymlink(ino) && r.Ok? ==>
              r.value.size == 0 && NulTerminatedAt(v, ino.payload.off, r.value.payload)
    ensures !IsDir(ino) && !IsSymlink(ino) && r.Ok? ==>
              var off := ino.backing.off;
              off + L.backingSize <= |v|
              && var backing := L.backingAt(v[off..off + L.backingSize]);
              r.value.size == backing.stSize
              && (ino.backing.len == 0 ==> r.value.payload == [])
              && (ino.backing.len != 0 ==> TruncatedAt(v, off + L.backingSize, backing.payloadLen, r.value.payload))
    ensures !IsDir(ino) ==>
              (r.Err? <==> GetVPayload(L, v, IsSymlink(ino), ino).Err? || GetSize(L, v, IsSymlink(ino), ino).Err?)
  {
    if IsDir(ino) then Ok(Shown(0, []))
    else
      var payload :- GetVPayload(L, v, IsSymlink(ino), ino);
      var size :- GetSize(L, v, IsSymlink(ino), ino);
      Ok(Shown(size, payload))
  }

  /** A regular file without a backing record still has its size read from
      the record at `u.backing.off`: the reported size is the same as if the
      file had a backing record there. */
  lemma SizeIgnoresBackingLen(L: Layout, v: Bytes, ino: Inode, len: nat)
    requires !IsDir(ino) && !IsSymlink(ino)
    ensures var other := ino.(backing := VRef(ino.backing.off, len));
            ExtendedReport(L, v, ino).Ok? && ExtendedReport(L, v, other).Ok? ==>
              ExtendedReport(L, v, ino).value.size == ExtendedReport(L, v, other).value.size
  {
  }
}
