/** Directory lookup (find_child) and path resolution (lookup). */
module Lookup {
  import opened Format

  // ---- Directory tables ---------------------------------------------------

  /** Total length of the names of the given entries. */
  function NameSum(es: seq<Dentry>): nat {
    if es == [] then 0 else NameSum(es[..|es| - 1]) + es[|es| - 1].nameLen
  }

  /** Offset of entry k's name: names are packed back to back after the
      table header. */
  function NamePos(base: nat, es: seq<Dentry>, k: nat): nat
    requires k <= |es|
  {
    base + NameSum(es[..k])
  }

  lemma NamePosNext(base: nat, es: seq<Dentry>, k: nat)
    requires k < |es|
    ensures NamePos(base, es, k + 1) == NamePos(base, es, k) + es[k].nameLen
  {
    assert es[..k + 1][..k] == es[..k];
  }

  /** Entry `e`, whose name starts at `pos`, is named `q`. */
  predicate NameMatches(v: Bytes, pos: nat, e: Dentry, q: Bytes) {
    e.nameLen == |q| && pos + |q| <= |v| && v[pos..pos + |q|] == q
  }

  /** Entry `e` is not named `q`, and deciding so reads only the data area:
      either the lengths differ (no byte is compared) or the name is in range
      and its bytes differ. */
  predicate NameDiffers(v: Bytes, pos: nat, e: Dentry, q: Bytes) {
    e.nameLen != |q| || (pos + |q| <= |v| && v[pos..pos + |q|] != q)
  }

  /** The scan of find_child from entry `i`, whose name starts at `pos`:
      the first entry whose length and bytes equal `q` gives its
      `inode_index`; SIZE_MAX when none does. */
  function FindIn(v: Bytes, es: seq<Dentry>, i: nat, pos: nat, q: Bytes): Res<nat>
    requires i <= |es|
    decreases |es| - i
  {
    if i == |es| then Ok(SIZE_MAX)
    else if es[i].nameLen == |q| && |v| < pos + |q| then Err(OutOfBounds)
    else if es[i].nameLen == |q| && v[pos..pos + |q|] == q then Ok(es[i].inodeIndex)
    else FindIn(v, es, i + 1, pos + es[i].nameLen, q)
  }

  /** find_child, as a function of the data area. */
  function FindChildSpec(L: Layout, v: Bytes, current: nat, name: Bytes): (r: Res<nat>)
    ensures ReadInode(L, v, current).Err? ==> r == Err(OutOfBounds)
    ensures ReadInode(L, v, current).Ok? && !IsDir(ReadInode(L, v, current).value) ==> r == Ok(SIZE_MAX)
    ensures ReadInode(L, v, current).Ok? && ReadInode(L, v, current).value.dir.len == 0 ==> r == Ok(SIZE_MAX)
  {
    var ino :- ReadInode(L, v, current);
    if !IsDir(ino) then Ok(SIZE_MAX)
    else if ino.dir.len == 0 then Ok(SIZE_MAX)
    else
      var es :- ReadDir(L, v, ino.dir.off);
      FindIn(v, es, 0, ino.dir.off + L.dirSize(|es|), name)
  }

  /** Looks `name` up in the directory whose inode is at `current`, scanning
      the entries in table order with a running name cursor. */
  method FindChild(L: Layout, v: Bytes, current: nat, name: Bytes) returns (r: Res<nat>)
    ensures r == FindChildSpec(L, v, current, name)
  {
    var ino :- ReadInode(L, v, current);
    if !IsDir(ino) {
      return Ok(SIZE_MAX);
    }
    if ino.dir.len == 0 {
      return Ok(SIZE_MAX);
    }
    var dir :- ReadDir(L, v, ino.dir.off);
    var nDentries := |dir|;
    var nameLen := |name|;
    var namedata: nat := ino.dir.off + L.dirSize(nDentries);
    var i := 0;
    while i < nDentries
      invariant i <= nDentries
      invariant FindIn(v, dir, 0, ino.dir.off + L.dirSize(nDentries), name) == FindIn(v, dir, i, namedata, name)
    {
      if nameLen == dir[i].nameLen {
        if |v| < namedata + nameLen {
          return Err(OutOfBounds);
        }
        if v[namedata..namedata + nameLen] == name {
          return Ok(dir[i].inodeIndex);
        }
      }
      namedata := namedata + dir[i].nameLen;
      i := i + 1;
    }
    return Ok(SIZE_MAX);
  }

  lemma {:induction false} FindInFrom(v: Bytes, es: seq<Dentry>, base: nat, q: Bytes, i: nat, k: nat)
    requires i <= k <= |es|
    requires forall j :: i <= j < k ==> NameDiffers(v, NamePos(base, es, j), es[j], q)
    ensures FindIn(v, es, i, NamePos(base, es, i), q) == FindIn(v, es, k, NamePos(base, es, k), q)
    decreases k - i
  {
    if i < k {
      NamePosNext(base, es, i);
      FindInFrom(v, es, base, q, i + 1, k);
    }
  }

  /** The scan returns the `inode_index` of the first entry named `q`. */
  lemma FindChildFirstMatch(L: Layout, v: Bytes, current: nat, ino: Inode, es: seq<Dentry>, q: Bytes, k: nat)
    requires ReadInode(L, v, current) == Ok(ino) && IsDir(ino) && ino.dir.len != 0
    requires ReadDir(L, v, ino.dir.off) == Ok(es)
    requires k < |es|
    requires var base := ino.dir.off + L.dirSize(|es|);
             NameMatches(v, NamePos(base, es, k), es[k], q)
             && forall j :: 0 <= j < k ==> NameDiffers(v, NamePos(base, es, j), es[j], q)
    ensures FindChildSpec(L, v, current, q) == Ok(es[k].inodeIndex)
  {
    FindInFrom(v, es, ino.dir.off + L.dirSize(|es|), q, 0, k);
  }

  /** When no entry is named `q`, the scan returns SIZE_MAX. */
  lemma FindChildNoMatch(L: Layout, v: Bytes, current: nat, ino: Inode, es: seq<Dentry>, q: Bytes)
    requires ReadInode(L, v, current) == Ok(ino) && IsDir(ino) && ino.dir.len != 0
    requires ReadDir(L, v, ino.dir.off) == Ok(es)
    requires var base := ino.dir.off + L.dirSize(|es|);
             forall j :: 0 <= j < |es| ==> NameDiffers(v, NamePos(base, es, j), es[j], q)
    ensures FindChildSpec(L, v, current, q) == Ok(SIZE_MAX)
  {
    FindInFrom(v, es, ino.dir.off + L.dirSize(|es|), q, 0, |es|);
  }

  /** An entry of the right length whose name runs past the data area, met
      before any match, stops the scan: memcmp would read out of bounds. */
  lemma FindChildOutOfBounds(L: Layout, v: Bytes, current: nat, ino: Inode, es: seq<Dentry>, q: Bytes, k: nat)
    requires ReadInode(L, v, current) == Ok(ino) && IsDir(ino) && ino.dir.len != 0
    requires ReadDir(L, v, ino.dir.off) == Ok(es)
    requires k < |es|
    requires var base := ino.dir.off + L.dirSize(|es|);
             es[k].nameLen == |q| && |v| < NamePos(base, es, k) + |q|
             && forall j :: 0 <= j < k ==> NameDiffers(v, NamePos(base, es, j), es[j], q)
    ensures FindChildSpec(L, v, current, q) == Err(OutOfBounds)
  {
    FindInFrom(v, es, ino.dir.off + L.dirSize(|es|), q, 0, k);
  }

  // ---- Paths ---------------------------------------------------------------

  const SLASH: bv8 := 0x2F

  /** Index of the first '/' in `p`, or |p| when there is none (the
      delimiter search of strsep). */
  function SlashIndex(p: Bytes): (k: nat)
    ensures k <= |p|
    ensures k < |p| ==> p[k] == SLASH
    ensures forall j :: 0 <= j < k ==> p[j] != SLASH
  {
    if p == [] || p[0] == SLASH then 0 else 1 + SlashIndex(p[1..])
  }

  /** A token is kept as a component only when it is not empty. */
  function Token(t: Bytes): seq<Bytes> {
    if t == [] then [] else [t]
  }

  /** The tokens strsep cuts `p` into at every '/', with the empty ones
      (from leading, trailing or repeated slashes) dropped. */
  function Components(p: Bytes): seq<Bytes>
    decreases |p|
  {
    var k := SlashIndex(p);
    if k == |p| then Token(p) else Token(p[..k]) + Components(p[k + 1..])
  }

  /** Every component is a non-empty name without a slash. */
  lemma {:induction false} ComponentsAreNames(p: Bytes)
    ensures forall i :: 0 <= i < |Components(p)| ==> Components(p)[i] != [] && SLASH !in Components(p)[i]
    decreases |p|
  {
    var k := SlashIndex(p);
    if k < |p| {
      ComponentsAreNames(p[k + 1..]);
    }
  }

  lemma {:induction false} SlashFreePrefix(a: Bytes, b: Bytes)
    requires forall j :: 0 <= j < |a| ==> a[j] != SLASH
    requires b != [] && b[0] == SLASH
    ensures SlashIndex(a + b) == |a|
    decreases |a|
  {
    if a != [] {
      assert (a + b)[1..] == a[1..] + b;
      SlashFreePrefix(a[1..], b);
    }
  }

  /** The first token of a path ends at its first slash. */
  lemma SplitFirst(p: Bytes, x: Bytes, rest: Bytes)
    requires SLASH !in x
    requires p == x + [SLASH] + rest
    ensures Components(p) == Token(x) + Components(rest)
  {
    assert p == x + ([SLASH] + rest);
    SlashFreePrefix(x, [SLASH] + rest);
    assert p[..|x|] == x;
    assert p[|x| + 1..] == rest;
  }

  lemma ConcatAssoc(t: seq<Bytes>, c: seq<Bytes>, d: seq<Bytes>)
    ensures t + (c + d) == (t + c) + d
  {
  }

  lemma ComponentsOfSlashFree(a: Bytes)
    requires SLASH !in a
    ensures Components(a) == Token(a)
  {
    assert SlashIndex(a) == |a|;
  }

  /** A slash splits a path into the components of either side. */
  lemma {:induction false} ComponentsAppend(a: Bytes, b: Bytes)
    ensures Components(a + [SLASH] + b) == Components(a) + Components(b)
    decreases |a|
  {
    var k := SlashIndex(a);
    if k == |a| {
      SplitFirst(a + [SLASH] + b, a, b);
      ComponentsOfSlashFree(a);
    } else {
      var x, rest := a[..k], a[k + 1..];
      SplitFirst(a, x, rest);
      SplitFirst(a + [SLASH] + b, x, rest + [SLASH] + b);
      ComponentsAppend(rest, b);
      ConcatAssoc(Token(x), Components(rest), Components(b));
    }
  }

  /** A leading slash does not change a path's components. */
  lemma LeadingSlash(a: Bytes)
    ensures Components([SLASH] + a) == Components(a)
  {
    SplitFirst([SLASH] + a, [], a);
  }

  /** A trailing slash does not change a path's components. */
  lemma TrailingSlash(a: Bytes)
    ensures Components(a + [SLASH]) == Components(a)
  {
    ComponentsAppend(a, []);
    assert a + [SLASH] + [] == a + [SLASH];
    assert Components([]) == [];
  }

  /** A repeated slash inside a path counts as one. */
  lemma RepeatedSlash(a: Bytes, b: Bytes)
    ensures Components(a + [SLASH, SLASH] + b) == Components(a + [SLASH] + b)
  {
    ComponentsAppend(a, [SLASH] + b);
    assert a + [SLASH] + ([SLASH] + b) == a + [SLASH, SLASH] + b;
    LeadingSlash(b);
    ComponentsAppend(a, b);
  }

  /** A path made of slashes only (including the empty path) has no components. */
  lemma {:induction false} OnlySlashes(p: Bytes)
    requires forall i :: 0 <= i < |p| ==> p[i] == SLASH
    ensures Components(p) == []
    decreases |p|
  {
    if p != [] {
      assert SlashIndex(p) == 0;
      OnlySlashes(p[1..]);
    }
  }

  /** Left fold of find_child over the components: a SIZE_MAX answer ends the
      walk with ENOENT. */
  function Walk(L: Layout, v: Bytes, current: nat, cs: seq<Bytes>): Res<nat>
    decreases |cs|
  {
    if cs == [] then Ok(current)
    else
      match FindChildSpec(L, v, current, cs[0])
      case Err(e) => Err(e)
      case Ok(next) => if next == SIZE_MAX then Err(NotFound) else Walk(L, v, next, cs[1..])
  }

  /** One step of the fold. */
  function Step(L: Layout, v: Bytes, current: nat, c: Bytes, cs: seq<Bytes>): Res<nat> {
    match FindChildSpec(L, v, current, c)
    case Err(e) => Err(e)
    case Ok(next) => if next == SIZE_MAX then Err(NotFound) else Walk(L, v, next, cs)
  }

  lemma WalkCons(L: Layout, v: Bytes, current: nat, c: Bytes, cs: seq<Bytes>)
    ensures Walk(L, v, current, [c] + cs) == Step(L, v, current, c, cs)
  {
    assert ([c] + cs)[0] == c;
    assert ([c] + cs)[1..] == cs;
  }

  lemma WalkToken(L: Layout, v: Bytes, current: nat, t: Bytes, cs: seq<Bytes>)
    ensures Walk(L, v, current, Token(t) + cs)
            == if t == [] then Walk(L, v, current, cs) else Step(L, v, current, t, cs)
  {
    if t == [] {
      assert Token(t) + cs == cs;
    } else {
      WalkCons(L, v, current, t, cs);
    }
  }

  /** lookup, as a function of the data area: the offset of the inode `what`
      names, starting from the inode at `current`. */
  function LookupSpec(L: Layout, v: Bytes, current: nat, what: Bytes): Res<nat> {
    if what == [SLASH] then Ok(current) else Walk(L, v, current, Components(what))
  }

  /** The components of the rest of the path from `dpath`: the token strsep
      cuts next, then the components after its delimiter. */
  lemma NextToken(what: Bytes, dpath: nat, k: nat)
    requires dpath <= |what|
    requires k == dpath + SlashIndex(what[dpath..])
    ensures k <= |what|
    ensures Components(what[dpath..])
            == Token(what[dpath..k]) + (if k < |what| then Components(what[k + 1..]) else [])
  {
    var rest := what[dpath..];
    if k == |what| {
      assert what[dpath..k] == rest;
      assert SLASH !in rest by {
        forall i | 0 <= i < |rest| ensures rest[i] != SLASH { }
      }
      ComponentsOfSlashFree(rest);
      assert Token(rest) + [] == Token(rest);
    } else {
      assert rest == what[dpath..k] + [SLASH] + what[k + 1..];
      SplitFirst(rest, what[dpath..k], what[k + 1..]);
    }
  }

  /** strsep on the rest of the path starting at `dpath`: the token up to the
      next '/', and where the rest begins after it (`more` is false when the
      token was the last one). */
  method Strsep(what: Bytes, dpath: nat) returns (token: Bytes, rest: nat, more: bool)
    requires dpath <= |what|
    ensures dpath + |token| <= |what| && token == what[dpath..dpath + |token|]
    ensures more ==> dpath < rest <= |what| && rest == dpath + |token| + 1 && what[rest - 1] == SLASH
    ensures !more ==> rest == dpath && dpath + |token| == |what|
    ensures Components(what[dpath..]) == Token(token) + (if more then Components(what[rest..]) else [])
  {
    var k := dpath + SlashIndex(what[dpath..]);
    NextToken(what, dpath, k);
    token := what[dpath..k];
    if k < |what| {
      rest, more := k + 1, true;
    } else {
      rest, more := dpath, false;
    }
  }

  /** Resolves `what` from `current`, cutting it into tokens at each '/' as
      strsep does and skipping the empty tokens. */
  method Lookup(L: Layout, v: Bytes, current: nat, what: Bytes) returns (r: Res<nat>)
    ensures r == LookupSpec(L, v, current, what)
  {
    if what == [SLASH] {
      return Ok(current);
    }
    var cur := current;
    var dpath := 0;      // start of the untokenised rest of the path
    var more := true;    // strsep has not yet returned the last token
    ghost var todo := Components(what);
    while more
      invariant dpath <= |what|
      invariant todo == if more then Components(what[dpath..]) else []
      invariant Walk(L, v, current, Components(what)) == Walk(L, v, cur, todo)
      decreases |what| - dpath, more
    {
      var it, next, stillMore := Strsep(what, dpath);
      ghost var tail := if stillMore then Components(what[next..]) else [];
      WalkToken(L, v, cur, it, tail);
      dpath, more, todo := next, stillMore, tail;
      if |it| == 0 {
        continue;
      }
      var child :- FindChild(L, v, cur, it);
      if child == SIZE_MAX {
        return Err(NotFound);
      }
      cur := child;
    }
    return Ok(cur);
  }

  // ---- Properties of lookup -------------------------------------------------

  /** The fold over a concatenation is the fold over the second part from
      where the first part ends; a failure in the first part is final. */
  lemma {:induction false} WalkAppend(L: Layout, v: Bytes, current: nat, a: seq<Bytes>, b: seq<Bytes>)
    ensures Walk(L, v, current, a + b)
            == match Walk(L, v, current, a)
               case Ok(m) => Walk(L, v, m, b)
               case Err(e) => Err(e)
    decreases |a|
  {
    if a == [] {
      assert a + b == b;
    } else {
      assert a + b == [a[0]] + (a[1..] + b);
      assert a == [a[0]] + a[1..];
      WalkCons(L, v, current, a[0], a[1..] + b);
      WalkCons(L, v, current, a[0], a[1..]);
      match FindChildSpec(L, v, current, a[0])
      case Ok(next) =>
        if next != SIZE_MAX {
          WalkAppend(L, v, next, a[1..], b);
        }
      case Err(_) =>
    }
  }

  /** "/" is answered without reading any table, and agrees with the general
      rule: any path of slashes only (including "") resolves to the start. */
  lemma LookupOnlySlashes(L: Layout, v: Bytes, current: nat, what: Bytes)
    requires forall i :: 0 <= i < |what| ==> what[i] == SLASH
    ensures LookupSpec(L, v, current, what) == Ok(current)
  {
    OnlySlashes(what);
  }

  /** The "/" special case is redundant: every path resolves as the fold of
      find_child over its components. */
  lemma LookupIsWalk(L: Layout, v: Bytes, current: nat, what: Bytes)
    ensures LookupSpec(L, v, current, what) == Walk(L, v, current, Components(what))
  {
    if what == [SLASH] {
      OnlySlashes(what);
    }
  }

  /** Resolving "a/b" is resolving "b" from where "a" leads; so "a//b/",
      "/a/b" and "a/b" resolve alike. */
  lemma LookupConcat(L: Layout, v: Bytes, current: nat, a: Bytes, b: Bytes)
    ensures LookupSpec(L, v, current, a + [SLASH] + b)
            == match LookupSpec(L, v, current, a)
               case Ok(m) => LookupSpec(L, v, m, b)
               case Err(e) => Err(e)
  {
    LookupIsWalk(L, v, current, a + [SLASH] + b);
    LookupIsWalk(L, v, current, a);
    ComponentsAppend(a, b);
    WalkAppend(L, v, current, Components(a), Components(b));
    match Walk(L, v, current, Components(a))
    case Ok(m) => LookupIsWalk(L, v, m, b);
    case Err(_) =>
  }

  /** Lookup stops at the first component that is not found: whatever
      follows it, the result is ENOENT. */
  lemma LookupStopsAtMissing(L: Layout, v: Bytes, current: nat, cs: seq<Bytes>, k: nat, m: nat)
    requires k < |cs|
    requires Walk(L, v, current, cs[..k]) == Ok(m)
    requires FindChildSpec(L, v, m, cs[k]) == Ok(SIZE_MAX)
    ensures Walk(L, v, current, cs) == Err(NotFound)
  {
    assert cs == cs[..k] + cs[k..];
    WalkAppend(L, v, current, cs[..k], cs[k..]);
    assert cs[k..] == [cs[k]] + cs[k + 1..];
    WalkCons(L, v, m, cs[k], cs[k + 1..]);
  }

  /** A component below a non-directory is never found. */
  lemma LookupThroughNonDir(L: Layout, v: Bytes, current: nat, ino: Inode, what: Bytes)
    requires ReadInode(L, v, current) == Ok(ino) && !IsDir(ino)
    requires Components(what) != []
    ensures LookupSpec(L, v, current, what) == Err(NotFound)
  {
    LookupIsWalk(L, v, current, what);
  }

  /** A single name resolves to what find_child answers for it. */
  lemma LookupOneName(L: Layout, v: Bytes, current: nat, name: Bytes)
    requires name != [] && SLASH !in name
    ensures LookupSpec(L, v, current, name)
            == match FindChildSpec(L, v, current, name)
               case Ok(n) => if n == SIZE_MAX then Err(NotFound) else Ok(n)
               case Err(e) => Err(e)
  {
    ComponentsOfSlashFree(name);
    WalkCons(L, v, current, name, []);
    assert [name] + [] == [name];
    match FindChildSpec(L, v, current, name)
    case Ok(n) =>
      if n != SIZE_MAX {
        assert Walk(L, v, n, []) == Ok(n);
      }
    case Err(_) =>
  }
}
