/** The recursive dump of dump_dentry and the command dispatch of main.
    Output is modelled as a sequence of structured events rather than text. */
module Dump {
  import opened Format
  import opened Report
  import opened Lookup

  /** The flags of dump_dentry. */
  datatype Options = Options(extended: bool, xattrs: bool, recurse: bool)

  /** The columns of one extended line. */
  datatype ExtRecord = ExtRecord(
    name: Bytes, index: nat, mode: bv32, nlink: nat, uid: nat, gid: nat, size: nat, payload: Bytes)

  datatype Out =
    | Indent(depth: nat)               // '|' followed by `depth` dashes
    | Xattr(key: Bytes, value: Bytes)  // "key -> value"
    | Name(name: Bytes)                // plain listing line
    | Extended(ext: ExtRecord)         // extended listing line

  /** `acc` followed by the output of `r`, if `r` succeeded. */
  function Then(acc: seq<Out>, r: Res<seq<Out>>): Res<seq<Out>> {
    match r
    case Ok(s) => Ok(acc + s)
    case Err(e) => Err(e)
  }

  lemma ThenEmpty(acc: seq<Out>)
    ensures Then(acc, Ok([])) == Ok(acc)
  {
    assert acc + [] == acc;
  }

  lemma ThenNothing(r: Res<seq<Out>>)
    ensures Then([], r) == r
  {
    match r {
      case Ok(s) => assert [] + s == s;
      case Err(_) =>
    }
  }

  lemma ThenAssoc(a: seq<Out>, b: seq<Out>, r: Res<seq<Out>>)
    ensures Then(a, Then(b, r)) == Then(a + b, r)
  {
    match r {
      case Ok(s) => assert a + (b + s) == (a + b) + s;
      case Err(_) =>
    }
  }

  // ---- Extended-attribute tables ---------------------------------------------

  /** Values of uint32_t: the attribute loop copies each length into one. */
  const U32_MOD: nat := 0x1_0000_0000

  /** The key length as the loop's `uint32_t key_length` holds it. */
  function KeyLen(e: XattrEntry): nat {
    e.keyLen % U32_MOD
  }

  /** The value length as the loop's `uint32_t value_length` holds it. */
  function ValueLen(e: XattrEntry): nat {
    e.valueLen % U32_MOD
  }

  /** How far the key cursor advances past a pair: `key_length + value_length`
      is a 32-bit unsigned sum, so lengths adding up to 2^32 or more wrap. */
  function PairStep(e: XattrEntry): (r: nat)
    ensures r < U32_MOD
    ensures KeyLen(e) + ValueLen(e) < U32_MOD ==> r == KeyLen(e) + ValueLen(e)
    ensures KeyLen(e) + ValueLen(e) >= U32_MOD ==> r + U32_MOD == KeyLen(e) + ValueLen(e)
  {
    (KeyLen(e) + ValueLen(e)) % U32_MOD
  }

  /** A pair whose 32-bit lengths add up to exactly 2^32 leaves the cursor
      where it was: the next pair is read at the same offset. */
  lemma WrappedPairStays()
    ensures PairStep(XattrEntry(0xFFFF_FFFF, 1)) == 0
  {
  }

  /** Total cursor advance over the given attributes. */
  function PairSum(attrs: seq<XattrEntry>): nat {
    if attrs == [] then 0
    else PairSum(attrs[..|attrs| - 1]) + PairStep(attrs[|attrs| - 1])
  }

  /** Total length of the keys and values of the given attributes. */
  function LengthSum(attrs: seq<XattrEntry>): nat {
    if attrs == [] then 0
    else LengthSum(attrs[..|attrs| - 1]) + attrs[|attrs| - 1].keyLen + attrs[|attrs| - 1].valueLen
  }

  /** When every pair's lengths fit in 32 bits and so does their sum, the
      cursor advances by exactly the key and value lengths. */
  lemma {:induction false} NoWrapPairSum(attrs: seq<XattrEntry>)
    requires forall j :: 0 <= j < |attrs| ==> attrs[j].keyLen + attrs[j].valueLen < U32_MOD
    ensures PairSum(attrs) == LengthSum(attrs)
    decreases |attrs|
  {
    if attrs != [] {
      var init := attrs[..|attrs| - 1];
      assert forall j :: 0 <= j < |init| ==> init[j] == attrs[j];
      NoWrapPairSum(init);
    }
  }

  /** Offset of attribute k's key: the pairs follow the table header, and
      the cursor advances past each pair by its 32-bit length sum. */
  function PairPos(base: nat, attrs: seq<XattrEntry>, k: nat): nat
    requires k <= |attrs|
  {
    base + PairSum(attrs[..k])
  }

  lemma PairPosNext(base: nat, attrs: seq<XattrEntry>, k: nat)
    requires k < |attrs|
    ensures PairPos(base, attrs, k + 1) == PairPos(base, attrs, k) + PairStep(attrs[k])
  {
    assert attrs[..k + 1][..k] == attrs[..k];
  }

  /** The pairs of the table from attribute `i`, whose key starts at `data`. */
  function XattrsFrom(v: Bytes, attrs: seq<XattrEntry>, i: nat, data: nat): Res<seq<Out>>
    requires i <= |attrs|
    decreases |attrs| - i
  {
    if i == |attrs| then Ok([])
    else
      var key :- Slice(v, data, KeyLen(attrs[i]));
      var value :- Slice(v, data + KeyLen(attrs[i]), ValueLen(attrs[i]));
      Then([Xattr(key, value)], XattrsFrom(v, attrs, i + 1, data + PairStep(attrs[i])))
  }

  /** What the xattrs mode prints for an inode: nothing when it has no
      attribute table, otherwise one pair per attribute. */
  function XattrLines(L: Layout, v: Bytes, ino: Inode): Res<seq<Out>> {
    if ino.xattrs.len == 0 then Ok([])
    else
      var attrs :- ReadXattrHeader(L, v, ino.xattrs.off);
      XattrsFrom(v, attrs, 0, ino.xattrs.off + L.xattrHeaderSize(|attrs|))
  }

  /** Pair i's key and value lie in the data area. */
  predicate PairFits(v: Bytes, base: nat, attrs: seq<XattrEntry>, i: nat)
    requires i < |attrs|
  {
    PairPos(base, attrs, i) + KeyLen(attrs[i]) + ValueLen(attrs[i]) <= |v|
  }

  /** Pair i of the table, sliced at its offset: the key, then the value
      right after it. */
  predicate PairAt(v: Bytes, base: nat, attrs: seq<XattrEntry>, i: nat, o: Out)
    requires i < |attrs|
  {
    var p := PairPos(base, attrs, i);
    var k := KeyLen(attrs[i]);
    var n := ValueLen(attrs[i]);
    p + k + n <= |v|
    && o == Xattr(v[p..p + k], v[p + k..p + k + n])
  }

  /** The walk from pair i succeeds exactly when every remaining pair fits. */
  lemma {:induction false} XattrsFromOk(v: Bytes, attrs: seq<XattrEntry>, base: nat, i: nat)
    requires i <= |attrs|
    ensures XattrsFrom(v, attrs, i, PairPos(base, attrs, i)).Ok?
            <==> forall j :: i <= j < |attrs| ==> PairFits(v, base, attrs, j)
    decreases |attrs| - i
  {
    if i < |attrs| {
      PairPosNext(base, attrs, i);
      if PairFits(v, base, attrs, i) {
        XattrsFromOk(v, attrs, base, i + 1);
      }
    }
  }

  /** One step of the walk: a successful walk from pair i starts with that
      pair, sliced at `data`, followed by the walk from the next pair. */
  lemma XattrsFromStep(v: Bytes, attrs: seq<XattrEntry>, i: nat, data: nat)
    requires i < |attrs|
    ensures var r := XattrsFrom(v, attrs, i, data);
            var rest := XattrsFrom(v, attrs, i + 1, data + PairStep(attrs[i]));
            var k, n := KeyLen(attrs[i]), ValueLen(attrs[i]);
            r.Ok? ==> data + k + n <= |v| && rest.Ok? && |r.value| == |rest.value| + 1
                      && r.value[0] == Xattr(v[data..data + k], v[data + k..data + k + n])
                      && r.value[1..] == rest.value
  {
  }

  /** A successful walk from pair i yields the remaining pairs, each sliced
      at its own offset. */
  lemma {:induction false} XattrsFromPairs(v: Bytes, attrs: seq<XattrEntry>, base: nat, i: nat)
    requires i <= |attrs|
    ensures var r := XattrsFrom(v, attrs, i, PairPos(base, attrs, i));
            r.Ok? ==> |r.value| == |attrs| - i
                      && forall j :: 0 <= j < |attrs| - i ==> PairAt(v, base, attrs, i + j, r.value[j])
    decreases |attrs| - i
  {
    var r := XattrsFrom(v, attrs, i, PairPos(base, attrs, i));
    if i < |attrs| && r.Ok? {
      PairPosNext(base, attrs, i);
      XattrsFromStep(v, attrs, i, PairPos(base, attrs, i));
      XattrsFromPairs(v, attrs, base, i + 1);
      var rest := XattrsFrom(v, attrs, i + 1, PairPos(base, attrs, i + 1));
      assert PairAt(v, base, attrs, i, r.value[0]);
      ShiftPairs(v, base, attrs, i, r.value, rest.value);
    }
  }

  lemma ShiftPairs(v: Bytes, base: nat, attrs: seq<XattrEntry>, i: nat, out: seq<Out>, rest: seq<Out>)
    requires i < |attrs| && |out| == |attrs| - i && out[1..] == rest
    requires PairAt(v, base, attrs, i, out[0])
    requires forall j :: 0 <= j < |attrs| - (i + 1) ==> PairAt(v, base, attrs, (i + 1) + j, rest[j])
    ensures forall j :: 0 <= j < |attrs| - i ==> PairAt(v, base, attrs, i + j, out[j])
  {
    forall j | 1 <= j < |attrs| - i
      ensures PairAt(v, base, attrs, i + j, out[j])
    {
      var j' := j - 1;
      assert PairAt(v, base, attrs, (i + 1) + j', rest[j']);
      assert out[j] == rest[j'];
    }
  }

  /** The xattrs mode prints nothing for an inode without attributes, and
      otherwise exactly the table's pairs in order, each key starting where
      the cursor stands after the pairs before it and its value right after
      the key; it fails exactly when some pair runs past the data area. */
  lemma XattrsExact(L: Layout, v: Bytes, ino: Inode)
    ensures ino.xattrs.len == 0 ==> XattrLines(L, v, ino) == Ok([])
    ensures ino.xattrs.len != 0 && ReadXattrHeader(L, v, ino.xattrs.off).Ok? ==>
              var attrs := ReadXattrHeader(L, v, ino.xattrs.off).value;
              var base := ino.xattrs.off + L.xattrHeaderSize(|attrs|);
              var r := XattrLines(L, v, ino);
              && (r.Ok? <==> forall j :: 0 <= j < |attrs| ==> PairFits(v, base, attrs, j))
              && (r.Ok? ==> |r.value| == |attrs|
                            && forall j :: 0 <= j < |attrs| ==> PairAt(v, base, attrs, j, r.value[j]))
  {
    if ino.xattrs.len != 0 && ReadXattrHeader(L, v, ino.xattrs.off).Ok? {
      var attrs := ReadXattrHeader(L, v, ino.xattrs.off).value;
      var base := ino.xattrs.off + L.xattrHeaderSize(|attrs|);
      assert attrs[..0] == [];
      XattrsFromOk(v, attrs, base, 0);
      XattrsFromPairs(v, attrs, base, 0);
      var r := XattrLines(L, v, ino);
      if r.Ok? {
        forall j | 0 <= j < |attrs|
          ensures PairAt(v, base, attrs, j, r.value[j])
        {
          assert j == 0 + j;
        }
      }
    }
  }

  /** The attribute loop of dump_dentry, with a running key cursor. */
  method DumpXattrs(L: Layout, v: Bytes, ino: Inode) returns (r: Res<seq<Out>>)
    ensures r == XattrLines(L, v, ino)
  {
    if ino.xattrs.len == 0 {
      return Ok([]);
    }
    var header :- ReadXattrHeader(L, v, ino.xattrs.off);
    var nAttr := |header|;
    var data: nat := ino.xattrs.off + L.xattrHeaderSize(nAttr);
    var out := [];
    ThenNothing(XattrsFrom(v, header, 0, data));
    var i := 0;
    while i < nAttr
      invariant i <= nAttr
      invariant XattrLines(L, v, ino) == Then(out, XattrsFrom(v, header, i, data))
    {
      var keyLength := KeyLen(header[i]);
      var valueLength := ValueLen(header[i]);
      var key :- Slice(v, data, keyLength);
      var value :- Slice(v, data + keyLength, valueLength);
      ThenAssoc(out, [Xattr(key, value)], XattrsFrom(v, header, i + 1, data + PairStep(header[i])));
      out := out + [Xattr(key, value)];
      data := data + PairStep(header[i]);
      i := i + 1;
    }
    ThenEmpty(out);
    return Ok(out);
  }

  // ---- dump_dentry -------------------------------------------------------------

  /** What dump_dentry prints for the inode itself, after the indentation. The
      name is read only when it is printed. */
  function OwnLines(L: Layout, v: Bytes, namePos: nat, nameLen: nat, index: nat, ino: Inode, opt: Options)
    : Res<seq<Out>>
  {
    if opt.xattrs then XattrLines(L, v, ino)
    else
      var name :- Slice(v, namePos, nameLen);
      if !opt.extended then Ok([Name(name)])
      else
        var shown :- ExtendedReport(L, v, ino);
        Ok([Extended(ExtRecord(name, index, ino.mode, ino.nlink, ino.uid, ino.gid, shown.size, shown.payload))])
  }

  /** The walk descends into an inode only if it is a directory with a table
      and recursion was asked for. */
  predicate Descends(ino: Inode, opt: Options) {
    IsDir(ino) && opt.recurse && ino.dir.len != 0
  }

  /** dump_dentry as a function of the data area: the inode's own output,
      then its children's. `fuel` bounds the depth of the descent. */
  function Dump(L: Layout, v: Bytes, namePos: nat, nameLen: nat, index: nat, rec: nat, opt: Options, fuel: nat)
    : (r: Res<seq<Out>>)
    ensures r.Ok? ==> |r.value| >= 1 && r.value[0] == Indent(rec)
    decreases fuel, 1
  {
    var ino :- ReadInode(L, v, index);
    var own :- OwnLines(L, v, namePos, nameLen, index, ino, opt);
    Then([Indent(rec)] + own, Below(L, v, ino, rec, opt, fuel))
  }

  /** What is printed below an inode at depth `rec`: nothing unless the walk
      descends into it, otherwise its children. */
  function Below(L: Layout, v: Bytes, ino: Inode, rec: nat, opt: Options, fuel: nat): Res<seq<Out>>
    decreases fuel, 0
  {
    if !Descends(ino, opt) then Ok([])
    else if fuel == 0 then Err(TooDeep)
    else
      var dir :- ReadDir(L, v, ino.dir.off);
      Children(L, v, dir, 0, ino.dir.off + L.dirSize(|dir|), rec, opt, fuel - 1)
  }

  /** The children of a directory from entry `i`, whose name starts at `pos`,
      each dumped one level deeper than `rec`. */
  function Children(L: Layout, v: Bytes, es: seq<Dentry>, i: nat, pos: nat, rec: nat, opt: Options, fuel: nat)
    : Res<seq<Out>>
    requires i <= |es|
    decreases fuel, 2, |es| - i
  {
    if i == |es| then Ok([])
    else
      var first :- Dump(L, v, pos, es[i].nameLen, es[i].inodeIndex, rec + 1, opt, fuel);
      Then(first, Children(L, v, es, i + 1, pos + es[i].nameLen, rec, opt, fuel))
  }

  /** Prints (here: returns) the inode at `index` and, when it descends, its
      subtree, with a running name cursor over the directory table. */
  method DumpDentry(L: Layout, v: Bytes, namePos: nat, nameLen: nat, index: nat, rec: nat, opt: Options, fuel: nat)
    returns (r: Res<seq<Out>>)
    ensures r == Dump(L, v, namePos, nameLen, index, rec, opt, fuel)
    decreases fuel
  {
    var ino :- ReadInode(L, v, index);
    var dirp := IsDir(ino);
    ghost var own := OwnLines(L, v, namePos, nameLen, index, ino, opt);
    var out := [Indent(rec)];
    if opt.xattrs {
      var lines :- DumpXattrs(L, v, ino);
      out := out + lines;
    } else {
      var name :- Slice(v, namePos, nameLen);
      if !opt.extended {
        out := out + [Name(name)];
      } else {
        var shown :- ExtendedReport(L, v, ino);
        out := out + [Extended(ExtRecord(name, index, ino.mode, ino.nlink, ino.uid, ino.gid, shown.size, shown.payload))];
      }
    }
    assert own.Ok? && out == [Indent(rec)] + own.value;
    if dirp && opt.recurse && ino.dir.len != 0 {
      if fuel == 0 {
        return Err(TooDeep);
      }
      var dir :- ReadDir(L, v, ino.dir.off);
      var nDentries := |dir|;
      var namedata: nat := ino.dir.off + L.dirSize(nDentries);
      var i := 0;
      while i < nDentries
        invariant i <= nDentries
        invariant Dump(L, v, namePos, nameLen, index, rec, opt, fuel)
                  == Then(out, Children(L, v, dir, i, namedata, rec, opt, fuel - 1))
      {
        var childNameLen := dir[i].nameLen;
        var sub :- DumpDentry(L, v, namedata, childNameLen, dir[i].inodeIndex, rec + 1, opt, fuel - 1);
        ThenAssoc(out, sub, Children(L, v, dir, i + 1, namedata + childNameLen, rec, opt, fuel - 1));
        out := out + sub;
        namedata := namedata + childNameLen;
        i := i + 1;
      }
    }
    ThenEmpty(out);
    return Ok(out);
  }

  // ---- Properties of the dump ----------------------------------------------------

  /** The dumps of the first n children of a directory whose names start at
      `base`, concatenated in table order; child j is dumped at depth rec + 1
      under the name found after the names of the entries before it. */
  function InOrder(L: Layout, v: Bytes, es: seq<Dentry>, base: nat, n: nat, rec: nat, opt: Options, fuel: nat)
    : Res<seq<Out>>
    requires n <= |es|
  {
    if n == 0 then Ok([])
    else
      var before :- InOrder(L, v, es, base, n - 1, rec, opt, fuel);
      Then(before, Dump(L, v, NamePos(base, es, n - 1), es[n - 1].nameLen, es[n - 1].inodeIndex, rec + 1, opt, fuel))
  }

  lemma {:induction false} ChildrenSplit(L: Layout, v: Bytes, es: seq<Dentry>, base: nat, n: nat, rec: nat, opt: Options, fuel: nat)
    requires n <= |es|
    ensures Children(L, v, es, 0, base, rec, opt, fuel)
            == match InOrder(L, v, es, base, n, rec, opt, fuel)
               case Ok(s) => Then(s, Children(L, v, es, n, NamePos(base, es, n), rec, opt, fuel))
               case Err(e) => Err(e)
    decreases n
  {
    if n == 0 {
      assert es[..0] == [];
      ThenNothing(Children(L, v, es, 0, base, rec, opt, fuel));
    } else {
      ChildrenSplit(L, v, es, base, n - 1, rec, opt, fuel);
      NamePosNext(base, es, n - 1);
      match InOrder(L, v, es, base, n - 1, rec, opt, fuel) {
        case Ok(s) =>
          match Dump(L, v, NamePos(base, es, n - 1), es[n - 1].nameLen, es[n - 1].inodeIndex, rec + 1, opt, fuel) {
            case Ok(d) =>
              ThenAssoc(s, d, Children(L, v, es, n, NamePos(base, es, n), rec, opt, fuel));
            case Err(_) =>
          }
        case Err(_) =>
      }
    }
  }

  /** A directory's children are dumped in table order, each with its own
      subtree right after its line (pre-order), at one more level of
      indentation, under the name sliced at the running name offset. */
  lemma ChildrenInOrder(L: Layout, v: Bytes, es: seq<Dentry>, base: nat, rec: nat, opt: Options, fuel: nat)
    ensures Children(L, v, es, 0, base, rec, opt, fuel) == InOrder(L, v, es, base, |es|, rec, opt, fuel)
  {
    ChildrenSplit(L, v, es, base, |es|, rec, opt, fuel);
    match InOrder(L, v, es, base, |es|, rec, opt, fuel) {
      case Ok(s) => ThenEmpty(s);
      case Err(_) =>
    }
  }

  /** The full dump of a directory that is descended into: its indentation and
      own output, then the in-order dumps of its children, one level deeper
      and with one unit less of depth budget. */
  lemma DumpPreOrder(L: Layout, v: Bytes, namePos: nat, nameLen: nat, index: nat, rec: nat, opt: Options, f: nat,
                     ino: Inode, own: seq<Out>, dir: seq<Dentry>)
    requires ReadInode(L, v, index) == Ok(ino) && Descends(ino, opt)
    requires OwnLines(L, v, namePos, nameLen, index, ino, opt) == Ok(own)
    requires ReadDir(L, v, ino.dir.off) == Ok(dir)
    ensures Dump(L, v, namePos, nameLen, index, rec, opt, f + 1)
            == Then([Indent(rec)] + own, InOrder(L, v, dir, ino.dir.off + L.dirSize(|dir|), |dir|, rec, opt, f))
  {
    BelowInOrder(L, v, ino, rec, opt, f, dir);
  }

  /** Below a directory that is descended into come its children's dumps in
      table order. */
  lemma BelowInOrder(L: Layout, v: Bytes, ino: Inode, rec: nat, opt: Options, f: nat, dir: seq<Dentry>)
    requires Descends(ino, opt)
    requires ReadDir(L, v, ino.dir.off) == Ok(dir)
    ensures Below(L, v, ino, rec, opt, f + 1) == InOrder(L, v, dir, ino.dir.off + L.dirSize(|dir|), |dir|, rec, opt, f)
  {
    ChildrenInOrder(L, v, dir, ino.dir.off + L.dirSize(|dir|), rec, opt, f);
  }

  /** An inode that is not descended into yields only its indentation and own
      output, whatever the depth budget. */
  lemma NoDescent(L: Layout, v: Bytes, namePos: nat, nameLen: nat, index: nat, rec: nat, opt: Options, fuel: nat, ino: Inode)
    requires ReadInode(L, v, index) == Ok(ino) && !Descends(ino, opt)
    ensures Dump(L, v, namePos, nameLen, index, rec, opt, fuel) == Then([Indent(rec)], OwnLines(L, v, namePos, nameLen, index, ino, opt))
  {
    match OwnLines(L, v, namePos, nameLen, index, ino, opt) {
      case Ok(own) => ThenEmpty([Indent(rec)] + own);
      case Err(_) =>
    }
  }

  /** More depth budget does not change a dump that succeeded. */
  lemma {:induction false} DumpFuelMono(L: Layout, v: Bytes, namePos: nat, nameLen: nat, index: nat, rec: nat, opt: Options,
                                        fuel: nat, more: nat)
    requires Dump(L, v, namePos, nameLen, index, rec, opt, fuel).Ok?
    ensures Dump(L, v, namePos, nameLen, index, rec, opt, fuel + more) == Dump(L, v, namePos, nameLen, index, rec, opt, fuel)
    decreases fuel, 1
  {
    var ino := ReadInode(L, v, index).value;
    if Descends(ino, opt) {
      var dir := ReadDir(L, v, ino.dir.off).value;
      assert Below(L, v, ino, rec, opt, fuel).Ok?;
      ChildrenFuelMono(L, v, dir, 0, ino.dir.off + L.dirSize(|dir|), rec, opt, fuel - 1, more);
    }
  }

  lemma {:induction false} ChildrenFuelMono(L: Layout, v: Bytes, es: seq<Dentry>, i: nat, pos: nat, rec: nat, opt: Options,
                                            fuel: nat, more: nat)
    requires i <= |es|
    requires Children(L, v, es, i, pos, rec, opt, fuel).Ok?
    ensures Children(L, v, es, i, pos, rec, opt, fuel + more) == Children(L, v, es, i, pos, rec, opt, fuel)
    decreases fuel, 2, |es| - i
  {
    if i < |es| {
      DumpFuelMono(L, v, pos, es[i].nameLen, es[i].inodeIndex, rec + 1, opt, fuel, more);
      ChildrenFuelMono(L, v, es, i + 1, pos + es[i].nameLen, rec, opt, fuel, more);
    }
  }

  // ---- main ----------------------------------------------------------------------

  /** The four modes of the tool; the paths are those given on the command line. */
  datatype Command = DumpTree | DumpExtended | LookupPath(path: Bytes) | XattrsOf(path: Bytes)

  /** What `main` prints for a mapped blob: the dump modes walk the whole tree
      from the root, the lookup and xattrs modes print the one inode the path
      resolves to, and fail with ENOENT when it does not resolve. */
  function Run(L: Layout, blob: Bytes, cmd: Command, fuel: nat): (r: Res<seq<Out>>)
    requires |blob| < OFF_T_LIMIT && L.headerSize + L.inodeSize < OFF_T_LIMIT
    ensures r.Ok? ==> |r.value| >= 1 && r.value[0] == Indent(0)
  {
    if |blob| < L.headerSize then Err(OutOfBounds)
    else
      var v := GetVdata(L, blob);
      var root := RootIndex(L, |blob|);
      match cmd
      case DumpTree => Dump(L, v, 0, 0, root, 0, Options(false, false, true), fuel)
      case DumpExtended => Dump(L, v, 0, 0, root, 0, Options(true, false, true), fuel)
      case LookupPath(p) =>
        var index :- LookupSpec(L, v, root, p);
        Dump(L, v, 0, 0, index, 0, Options(true, false, false), fuel)
      case XattrsOf(p) =>
        var index :- LookupSpec(L, v, root, p);
        Dump(L, v, 0, 0, index, 0, Options(true, true, false), fuel)
  }

  /** The lookup mode fails as the path resolution does; otherwise it prints
      one extended line, with an empty name, for the inode the path resolves
      to: its offset, mode, link count, owner, group, size and payload. */
  lemma LookupModeShowsResolvedInode(L: Layout, blob: Bytes, path: Bytes, fuel: nat)
    requires L.headerSize <= |blob| < OFF_T_LIMIT && L.headerSize + L.inodeSize < OFF_T_LIMIT
    ensures var v := GetVdata(L, blob);
            var found := LookupSpec(L, v, RootIndex(L, |blob|), path);
            var r := Run(L, blob, LookupPath(path), fuel);
            && (found.Err? ==> r == Err(found.error))
            && (found.Ok? && ReadInode(L, v, found.value).Ok? ==>
                  var ino := ReadInode(L, v, found.value).value;
                  r == match ExtendedReport(L, v, ino)
                       case Ok(s) => Ok([Indent(0), Extended(ExtRecord([], found.value, ino.mode, ino.nlink, ino.uid, ino.gid, s.size, s.payload))])
                       case Err(e) => Err(e))
  {
    var v := GetVdata(L, blob);
    var found := LookupSpec(L, v, RootIndex(L, |blob|), path);
    if found.Ok? && ReadInode(L, v, found.value).Ok? {
      var opt := Options(true, false, false);
      var ino := ReadInode(L, v, found.value).value;
      NoDescent(L, v, 0, 0, found.value, 0, opt, fuel, ino);
      assert Run(L, blob, LookupPath(path), fuel) == Dump(L, v, 0, 0, found.value, 0, opt, fuel);
      assert Slice(v, 0, 0) == Ok([]);
      match ExtendedReport(L, v, ino) {
        case Ok(shown) =>
          var line := Extended(ExtRecord([], found.value, ino.mode, ino.nlink, ino.uid, ino.gid, shown.size, shown.payload));
          assert OwnLines(L, v, 0, 0, found.value, ino, opt) == Ok([line]);
          assert [Indent(0)] + [line] == [Indent(0), line];
        case Err(_) =>
      }
    }
  }

  /** The xattrs mode prints, after the indentation, exactly the attribute
      pairs of the inode the path resolves to. */
  lemma XattrsModeShowsResolvedInode(L: Layout, blob: Bytes, path: Bytes, fuel: nat)
    requires L.headerSize <= |blob| < OFF_T_LIMIT && L.headerSize + L.inodeSize < OFF_T_LIMIT
    ensures var v := GetVdata(L, blob);
            var found := LookupSpec(L, v, RootIndex(L, |blob|), path);
            var r := Run(L, blob, XattrsOf(path), fuel);
            && (found.Err? ==> r == Err(found.error))
            && (found.Ok? && ReadInode(L, v, found.value).Ok? ==>
                  r == Then([Indent(0)], XattrLines(L, v, ReadInode(L, v, found.value).value)))
  {
    var v := GetVdata(L, blob);
    var found := LookupSpec(L, v, RootIndex(L, |blob|), path);
    if found.Ok? && ReadInode(L, v, found.value).Ok? {
      NoDescent(L, v, 0, 0, found.value, 0, Options(true, true, false), fuel, ReadInode(L, v, found.value).value);
    }
  }

  /** A file too short to hold a header and one inode gives no output in any
      mode: the wrapped-around root offset cannot be read. */
  lemma ShortBlobFails(L: Layout, blob: Bytes, cmd: Command, fuel: nat)
    requires L.headerSize <= |blob| < L.headerSize + L.inodeSize < OFF_T_LIMIT
    ensures Run(L, blob, cmd, fuel) == Err(OutOfBounds)
  {
    var v := GetVdata(L, blob);
    var root := RootIndex(L, |blob|);
    ShortBlobHasNoRoot(L, blob);
    match cmd {
      case DumpTree =>
      case DumpExtended =>
      case LookupPath(p) => ShortBlobLookup(L, v, root, p);
      case XattrsOf(p) => ShortBlobLookup(L, v, root, p);
    }
  }

  /** From an unreadable inode, lookup either fails reading it or stays on it. */
  lemma ShortBlobLookup(L: Layout, v: Bytes, root: nat, p: Bytes)
    requires ReadInode(L, v, root).Err?
    ensures LookupSpec(L, v, root, p) == Err(OutOfBounds) || LookupSpec(L, v, root, p) == Ok(root)
  {
    LookupIsWalk(L, v, root, p);
  }
}
