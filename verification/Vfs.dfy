/** A mounted volume: a metadata cache, keyed by address, in front of the reader. */
module Vfs {
  import opened Bytes
  import opened Tags
  import opened FileEntry
  import opened Fids
  import opened Volume
  import opened Walk
  import Analyze
  import Symlink

  datatype NodeKind = Dir | File | Link | CharDevice | BlockDevice | Fifo | Socket | Other

  const FILE_TYPE_DIRECTORY: byte := 4

  function KindOfFileType(ft: byte): NodeKind {
    if ft == FILE_TYPE_DIRECTORY then Dir
    else if ft == 0x05 then File
    else if ft == 0x0c then Link
    else if ft == 0x07 then CharDevice
    else if ft == 0x06 then BlockDevice
    else if ft == 0x09 then Fifo
    else if ft == 0x0a then Socket
    else Other
  }

  datatype FeMeta = FeMeta(isDir: bool, kind: NodeKind, size: U64)

  type Cache = map<U32, FeMeta>

  datatype VfsError = Io(cause: Error) | NoVolume | Unsupported | Undecodable(offset: nat)

  datatype VfsResult<+T> = Done(value: T) | Failed(error: VfsError)

  datatype FileId = Opaque(n: U64) | Foreign

  datatype StreamId = DefaultStream | NamedStream

  /** Only an address is a node identity here. */
  function LbaOf(id: FileId): VfsResult<U32> {
    match id
    case Opaque(n) => if n <= U32_MAX then Done(n) else Failed(Unsupported)
    case Foreign => Failed(Unsupported)
  }

  // ----- what the image says -----

  /** The ICB file type, at offset 27 of a File Entry. */
  function FileTypeAt(p: Place, feLba: U32): Option<byte>
    requires ValidPlace(p)
  {
    var read := ReadBlock(p.image, p.bs, feLba);
    if read.Err? || !IsFileEntry(read.value) then None else Some(read.value[27])
  }

  /** The classification of a node from its own File Entry. */
  function Scratch(p: Place, feLba: U32): Option<FeMeta>
    requires ValidPlace(p)
  {
    match FileTypeAt(p, feLba)
    case None => None
    case Some(ft) =>
      var size := InfoLenAt(p, feLba);
      Some(FeMeta(ft == FILE_TYPE_DIRECTORY, KindOfFileType(ft), if size.Some? then size.value else 0))
  }

  /** All a parent's descriptor says of a child whose File Entry cannot be read. */
  function FidOnly(isDir: bool): FeMeta {
    FeMeta(isDir, if isDir then Dir else Other, 0)
  }

  /** The classification a listing gives a child, its size taken from the listing. */
  function ChildMeta(p: Place, c: DirEntry): FeMeta
    requires ValidPlace(p)
  {
    match FileTypeAt(p, c.feLba)
    case Some(ft) => FeMeta(ft == FILE_TYPE_DIRECTORY, KindOfFileType(ft), c.size)
    case None => FeMeta(c.isDir, if c.isDir then Dir else Other, c.size)
  }

  // ----- the cache as a state machine -----

  function Resolved(p: Place, cache: Cache, feLba: U32): Option<FeMeta>
    requires ValidPlace(p)
  {
    if feLba in cache then Some(cache[feLba]) else Scratch(p, feLba)
  }

  function AfterResolve(p: Place, cache: Cache, feLba: U32): Cache
    requires ValidPlace(p)
  {
    if feLba in cache || Scratch(p, feLba).None? then cache else cache[feLba := Scratch(p, feLba).value]
  }

  function AfterChildren(p: Place, cache: Cache, es: seq<DirEntry>): Cache
    requires ValidPlace(p)
  {
    if es == [] then cache
    else
      var c := es[|es| - 1];
      AfterChildren(p, cache, es[..|es| - 1])[c.feLba := ChildMeta(p, c)]
  }

  /** A listing succeeds for what resolves as a directory and can be read. */
  function Listing(p: Place, cache: Cache, feLba: U32): Option<seq<DirEntry>>
    requires ValidPlace(p)
  {
    var m := Resolved(p, cache, feLba);
    if m.None? || !m.value.isDir then None else ReadDirAt(p, feLba)
  }

  function AfterList(p: Place, cache: Cache, feLba: U32): Cache
    requires ValidPlace(p)
  {
    var resolved := AfterResolve(p, cache, feLba);
    var es := Listing(p, cache, feLba);
    if es.None? then resolved else AfterChildren(p, resolved, es.value)
  }

  /** Every operation resolves a node or lists a directory. */
  datatype Op = Stat(feLba: U32) | List(feLba: U32)

  function Apply(p: Place, cache: Cache, op: Op): Cache
    requires ValidPlace(p)
  {
    match op
    case Stat(l) => AfterResolve(p, cache, l)
    case List(l) => AfterList(p, cache, l)
  }

  function Run(p: Place, cache: Cache, ops: seq<Op>): Cache
    requires ValidPlace(p)
  {
    if ops == [] then cache else Apply(p, Run(p, cache, ops[..|ops| - 1]), ops[|ops| - 1])
  }

  function Seed(root: U32): Cache {
    map[root := FeMeta(true, Dir, 0)]
  }

  /** Some directory lists `feLba` with this directory bit. */
  ghost predicate ListedAs(p: Place, feLba: U32, isDir: bool)
    requires ValidPlace(p)
  {
    exists d: U32, c: DirEntry :: ReadDirAt(p, d).Some? && c in ReadDirAt(p, d).value && c.feLba == feLba &&
      c.isDir == isDir
  }

  /** A cache entry says what the image says. */
  ghost predicate Truthful(p: Place, feLba: U32, m: FeMeta)
    requires ValidPlace(p)
  {
    if Scratch(p, feLba).Some? then m == Scratch(p, feLba).value
    else exists isDir :: ListedAs(p, feLba, isDir) && m == FidOnly(isDir)
  }

  /** Every entry is truthful, but for the seeded one of the root. */
  ghost predicate Agrees(p: Place, root: U32, cache: Cache)
    requires ValidPlace(p)
  {
    && root in cache
    && forall l :: l in cache ==> Truthful(p, l, cache[l]) || (l == root && cache[l] == FeMeta(true, Dir, 0))
  }

  // ----- listings are truthful -----

  /** What every listed child satisfies: its size is that of its File Entry. */
  predicate SizesRead(p: Place, es: seq<DirEntry>) {
    forall i :: 0 <= i < |es| ==>
      es[i].size == if InfoLenAt(p, es[i].feLba).Some? then InfoLenAt(p, es[i].feLba).value else 0
  }

  lemma {:induction false} ListedSizes(p: Place, data: seq<byte>, ts: nat, off: nat)
    requires IsLayout(ts)
    ensures SizesRead(p, ListFrom(p, data, ts, off))
    decreases |data| - off
  {
    if off + ts + 20 <= |data| {
      if Le16(data, off) != TAG_FID {
        ListedSizes(p, data, ts, off + 4);
      } else if off + Advance(data, off, ts) <= |data| {
        ListedSizes(p, data, ts, off + Advance(data, off, ts));
      }
    }
  }

  lemma ChildIsTruthful(p: Place, dir: U32, c: DirEntry)
    requires ValidPlace(p) && ReadDirAt(p, dir).Some? && c in ReadDirAt(p, dir).value
    ensures Truthful(p, c.feLba, ChildMeta(p, c))
  {
    var es := ReadDirAt(p, dir).value;
    ListedSizes(p, FeData(p, dir).value, LayoutFrom(FeData(p, dir).value, 0), 0);
    var i :| 0 <= i < |es| && es[i] == c;
    if Scratch(p, c.feLba).None? {
      assert ListedAs(p, c.feLba, c.isDir);
      assert ChildMeta(p, c) == FidOnly(c.isDir);
    }
  }

  lemma {:induction false} ChildrenAgree(p: Place, root: U32, cache: Cache, dir: U32, es: seq<DirEntry>)
    requires ValidPlace(p) && Agrees(p, root, cache)
    requires ReadDirAt(p, dir).Some? && forall c :: c in es ==> c in ReadDirAt(p, dir).value
    ensures Agrees(p, root, AfterChildren(p, cache, es))
    decreases |es|
  {
    if es != [] {
      var n := |es| - 1;
      ChildrenAgree(p, root, cache, dir, es[..n]);
      ChildIsTruthful(p, dir, es[n]);
    }
  }

  lemma ApplyAgrees(p: Place, root: U32, cache: Cache, op: Op)
    requires ValidPlace(p) && Agrees(p, root, cache)
    ensures Agrees(p, root, Apply(p, cache, op))
  {
    var resolved := AfterResolve(p, cache, op.feLba);
    assert Agrees(p, root, resolved);
    if op.List? && Listing(p, cache, op.feLba).Some? {
      ChildrenAgree(p, root, resolved, op.feLba, Listing(p, cache, op.feLba).value);
    }
  }

  /** Over every sequence of operations the cache agrees with the image. */
  lemma {:induction false} RunAgrees(p: Place, root: U32, ops: seq<Op>)
    requires ValidPlace(p)
    ensures Agrees(p, root, Run(p, Seed(root), ops))
    decreases |ops|
  {
    if ops != [] {
      var n := |ops| - 1;
      RunAgrees(p, root, ops[..n]);
      ApplyAgrees(p, root, Run(p, Seed(root), ops[..n]), ops[n]);
    }
  }

  /** Kind and size of a readable node other than the root do not depend on what was done before. */
  lemma HistoryIndependent(p: Place, root: U32, ops: seq<Op>, feLba: U32)
    requires ValidPlace(p) && feLba != root && Scratch(p, feLba).Some?
    ensures Resolved(p, Run(p, Seed(root), ops), feLba) == Scratch(p, feLba)
  {
    RunAgrees(p, root, ops);
  }

  /** A node without a readable File Entry resolves only as a listing classified it, with size 0. */
  lemma UnreadableIsFidOnly(p: Place, root: U32, ops: seq<Op>, feLba: U32)
    requires ValidPlace(p) && feLba != root && Scratch(p, feLba).None?
    ensures var m := Resolved(p, Run(p, Seed(root), ops), feLba);
      m.Some? ==> exists isDir ::
        ListedAs(p, feLba, isDir) && m.value == FeMeta(isDir, if isDir then Dir else Other, 0)
  {
    RunAgrees(p, root, ops);
  }

  lemma {:induction false} ChildCached(p: Place, cache: Cache, es: seq<DirEntry>, c: DirEntry)
    requires ValidPlace(p) && c in es && SizesRead(p, es) && Scratch(p, c.feLba).Some?
    ensures c.feLba in AfterChildren(p, cache, es)
    ensures AfterChildren(p, cache, es)[c.feLba] == Scratch(p, c.feLba).value
    decreases |es|
  {
    var n := |es| - 1;
    assert es[n].feLba == c.feLba ==> ChildMeta(p, es[n]) == Scratch(p, c.feLba).value;
    if es[n].feLba != c.feLba {
      assert c in es[..n] by {
        assert es == es[..n] + [es[n]];
      }
      ChildCached(p, cache, es[..n], c);
    }
  }

  lemma {:induction false} ChildRecorded(p: Place, cache: Cache, es: seq<DirEntry>, c: DirEntry)
    requires ValidPlace(p) && c in es && SizesRead(p, es) && Scratch(p, c.feLba).None?
    ensures c.feLba in AfterChildren(p, cache, es)
    ensures exists d ::
      d in es && d.feLba == c.feLba &&
      AfterChildren(p, cache, es)[c.feLba] == FeMeta(d.isDir, if d.isDir then Dir else Other, 0)
    decreases |es|
  {
    var n := |es| - 1;
    if es[n].feLba == c.feLba {
      assert es[n] in es;
    } else {
      assert c in es[..n] by {
        assert es == es[..n] + [es[n]];
      }
      ChildRecorded(p, cache, es[..n], c);
      assert forall d :: d in es[..n] ==> d in es;
    }
  }

  /**
   * Every child a listing shows resolves from then on: from its own File Entry,
   * or, without one, as a directory or an unknown node of size 0.
   */
  lemma ListedResolves(p: Place, cache: Cache, dir: U32, c: DirEntry)
    requires ValidPlace(p) && Listing(p, cache, dir).Some? && c in Listing(p, cache, dir).value
    ensures Resolved(p, Apply(p, cache, List(dir)), c.feLba).Some?
    ensures var m := Resolved(p, Apply(p, cache, List(dir)), c.feLba).value;
      if Scratch(p, c.feLba).Some? then m == Scratch(p, c.feLba).value
      else exists d ::
        d in Listing(p, cache, dir).value && d.feLba == c.feLba &&
        m == FeMeta(d.isDir, if d.isDir then Dir else Other, 0)
  {
    var es := Listing(p, cache, dir).value;
    ListedSizes(p, FeData(p, dir).value, LayoutFrom(FeData(p, dir).value, 0), 0);
    if Scratch(p, c.feLba).Some? {
      ChildCached(p, AfterResolve(p, cache, dir), es, c);
    } else {
      ChildRecorded(p, AfterResolve(p, cache, dir), es, c);
    }
  }

  /** With an agreeing cache a directory's File Entry decides: it is listed exactly when its data can be read. */
  lemma ListingOfReadable(p: Place, root: U32, cache: Cache, l: U32)
    requires ValidPlace(p) && Agrees(p, root, cache)
    ensures Listing(p, cache, l).Some? ==> Listing(p, cache, l) == ReadDirAt(p, l)
    ensures Scratch(p, l).Some? && Scratch(p, l).value.isDir ==> Listing(p, cache, l) == ReadDirAt(p, l)
    ensures l != root && Scratch(p, l).Some? && !Scratch(p, l).value.isDir ==> Listing(p, cache, l).None?
  {
  }

  /** Node identities are addresses, both ways; anything else is refused. */
  lemma Identities(n: U64)
    ensures n <= U32_MAX ==> LbaOf(Opaque(n)) == Done(n)
    ensures n > U32_MAX ==> LbaOf(Opaque(n)) == Failed(Unsupported)
    ensures LbaOf(Foreign) == Failed(Unsupported)
  {
  }

  /** The File Type codes of ECMA-167 part 4, section 14.6.6, that are told apart. */
  lemma KindCodes(ft: byte)
    ensures KindOfFileType(ft) == Dir <==> ft == 4
    ensures KindOfFileType(ft) == File <==> ft == 5
    ensures KindOfFileType(ft) == BlockDevice <==> ft == 6
    ensures KindOfFileType(ft) == CharDevice <==> ft == 7
    ensures KindOfFileType(ft) == Fifo <==> ft == 9
    ensures KindOfFileType(ft) == Socket <==> ft == 10
    ensures KindOfFileType(ft) == Link <==> ft == 12
    ensures KindOfFileType(ft) == Other <==> ft !in {4, 5, 6, 7, 9, 10, 12}
  {
  }

  /** A node's classification: type code at 27, length at 56, of a block that is a File Entry. */
  lemma ScratchIs(p: Place, feLba: U32)
    requires ValidPlace(p)
    ensures var read := ReadBlock(p.image, p.bs, feLba);
      if read.Ok? && (Le16(read.value, 0) == 260 || Le16(read.value, 0) == 261 || Le16(read.value, 0) == 266)
      then Scratch(p, feLba) ==
        Some(FeMeta(read.value[27] == 4, KindOfFileType(read.value[27]), Le64(read.value, 56)))
      else Scratch(p, feLba).None?
  {
  }

  lemma {:induction false} UnnamedKept(p: Place, cache: Cache, es: seq<DirEntry>, lba: U32)
    requires ValidPlace(p) && lba in cache && forall i :: 0 <= i < |es| ==> es[i].feLba != lba
    ensures lba in AfterChildren(p, cache, es) && AfterChildren(p, cache, es)[lba] == cache[lba]
    decreases |es|
  {
    if es != [] {
      UnnamedKept(p, cache, es[..|es| - 1], lba);
    }
  }

  /** The operation lists a directory with a child at `lba`. */
  predicate Names(p: Place, cache: Cache, op: Op, lba: U32)
    requires ValidPlace(p)
  {
    op.List? && Listing(p, cache, op.feLba).Some? &&
    exists i :: 0 <= i < |Listing(p, cache, op.feLba).value| && Listing(p, cache, op.feLba).value[i].feLba == lba
  }

  /** One of the operations, in the state it ran in, has named the root as a child. */
  predicate Named(p: Place, root: U32, ops: seq<Op>)
    requires ValidPlace(p)
  {
    ops != [] &&
    var before := ops[..|ops| - 1];
    Named(p, root, before) || Names(p, Run(p, Seed(root), before), ops[|ops| - 1], root)
  }

  lemma RootAfter(p: Place, root: U32, cache: Cache, op: Op)
    requires ValidPlace(p) && root in cache && Scratch(p, root).Some?
    ensures root in Apply(p, cache, op)
    ensures Apply(p, cache, op)[root] == if Names(p, cache, op, root) then Scratch(p, root).value else cache[root]
  {
    if op.List? && Listing(p, cache, op.feLba).Some? {
      var dir, es := op.feLba, Listing(p, cache, op.feLba).value;
      var resolved := AfterResolve(p, cache, dir);
      if Names(p, cache, op, root) {
        var i :| 0 <= i < |es| && es[i].feLba == root;
        ListedSizes(p, FeData(p, dir).value, LayoutFrom(FeData(p, dir).value, 0), 0);
        ChildCached(p, resolved, es, es[i]);
      } else {
        UnnamedKept(p, resolved, es, root);
      }
    }
  }

  /**
   * After any operations the root's record is the seed, until a listing names
   * the root; from then on it is what the root's own File Entry says.
   */
  lemma {:induction false} RootRecord(p: Place, root: U32, ops: seq<Op>)
    requires ValidPlace(p) && Scratch(p, root).Some?
    ensures var cache := Run(p, Seed(root), ops);
      root in cache && cache[root] == if Named(p, root, ops) then Scratch(p, root).value else FeMeta(true, Dir, 0)
    decreases |ops|
  {
    if ops != [] {
      var n := |ops| - 1;
      RootRecord(p, root, ops[..n]);
      RootAfter(p, root, Run(p, Seed(root), ops[..n]), ops[n]);
    }
  }

  /** So the root resolves truthfully exactly when it was named, or when it is an empty directory anyway. */
  lemma RootDependsOnHistory(p: Place, root: U32, ops: seq<Op>)
    requires ValidPlace(p) && Scratch(p, root).Some?
    ensures Resolved(p, Run(p, Seed(root), ops), root) == Scratch(p, root) <==>
      Named(p, root, ops) || Scratch(p, root) == Some(FeMeta(true, Dir, 0))
  {
    RootRecord(p, root, ops);
  }

  // ----- reading in pieces -----

  /** What a read of at most `len` bytes at `off` returns. */
  function Chunk(data: seq<byte>, off: nat, len: nat): (c: seq<byte>)
    ensures |c| == if off < |data| then Min(|data| - off, len) else 0
    ensures forall i :: 0 <= i < |c| ==> c[i] == data[off + i]
  {
    if off >= |data| then [] else data[off..off + Min(|data| - off, len)]
  }

  /** Unreadable data has no bytes. */
  function ChunkOf(data: Option<seq<byte>>, off: nat, len: nat): (c: seq<byte>)
    ensures |c| <= len
  {
    if data.None? then [] else Chunk(data.value, off, len)
  }

  /** Reading on where the last read stopped gives the same bytes as one longer read. */
  lemma ChunksJoin(data: seq<byte>, off: nat, a: nat, b: nat)
    ensures var first := Chunk(data, off, a);
      first + Chunk(data, off + |first|, a + b - |first|) == Chunk(data, off, a + b)
  {
  }

  // ----- the mounted volume -----

  datatype DirItem = DirItem(name: seq<byte>, id: FileId, kind: NodeKind)

  datatype RunAlloc = Allocated | Unallocated

  datatype RunInfo = RunInfo(imageOffset: U64, len: U64, alloc: RunAlloc)

  datatype FsMeta = FsMeta(ino: U32, kind: NodeKind, size: U64)

  function Lower(c: char): char {
    if 'A' <= c <= 'Z' then (c as int + 32) as char else c
  }

  /** Equal but for the case of ASCII letters. */
  predicate SameIgnoringCase(s: string, t: string) {
    |s| == |t| && forall i :: 0 <= i < |s| ==> Lower(s[i]) == Lower(t[i])
  }

  method EqIgnoreCase(s: string, t: string) returns (same: bool)
    ensures same == SameIgnoringCase(s, t)
  {
    if |s| != |t| {
      return false;
    }
    for i := 0 to |s|
      invariant forall k :: 0 <= k < i ==> Lower(s[k]) == Lower(t[k])
    {
      if Lower(s[i]) != Lower(t[i]) {
        return false;
      }
    }
    return true;
  }

  /** The 26 letter pairs, and nothing else. */
  lemma LowerIs(c: char)
    ensures 'A' <= c <= 'Z' ==> Lower(c) as int == c as int - 'A' as int + 'a' as int
    ensures !('A' <= c <= 'Z') ==> Lower(c) == c
  {
  }

  predicate Matches(c: DirEntry, name: string, decode: Symlink.Decoder) {
    SameIgnoringCase(name, decode(c.name))
  }

  predicate FirstMatch(es: seq<DirEntry>, name: string, decode: Symlink.Decoder, i: nat) {
    i < |es| && Matches(es[i], name, decode) && forall k :: 0 <= k < i ==> !Matches(es[k], name, decode)
  }

  /** The first entry whose decoded name matches, if any does. */
  predicate IsFirstMatch(es: seq<DirEntry>, name: string, decode: Symlink.Decoder, r: Option<FileId>) {
    if r.None? then forall i :: 0 <= i < |es| ==> !Matches(es[i], name, decode)
    else exists i :: 0 <= i < |es| && FirstMatch(es, name, decode, i) && r.value == Opaque(es[i].feLba)
  }

  method FindName(es: seq<DirEntry>, name: string, decode: Symlink.Decoder) returns (r: Option<FileId>)
    ensures IsFirstMatch(es, name, decode, r)
  {
    for i := 0 to |es|
      invariant forall k :: 0 <= k < i ==> !Matches(es[k], name, decode)
    {
      var same := EqIgnoreCase(name, decode(es[i].name));
      if same {
        assert FirstMatch(es, name, decode, i);
        return Some(Opaque(es[i].feLba));
      }
    }
    return None;
  }

  /** Copy `src` to the front of the buffer. */
  method CopyOut(src: seq<byte>, buf: array<byte>)
    requires |src| <= buf.Length
    modifies buf
    ensures buf[..|src|] == src && buf[|src|..] == old(buf[|src|..])
  {
    for i := 0 to |src|
      invariant buf[..i] == src[..i]
      invariant buf[i..] == old(buf[i..])
    {
      buf[i] := src[i];
    }
  }

  class UdfVfs {
    const image: seq<byte>
    const state: UdfState
    var cache: Cache

    predicate Mounted() {
      IsBlockSize(state.blockSize)
    }

    /** The cache agrees with the image. */
    ghost predicate Valid()
      reads this
    {
      Mounted() && Agrees(Here(), state.rootFeLba, cache)
    }

    function Here(): Place {
      Analyze.PlaceOf(image, state)
    }

    /** A readable File Entry of a directory. */
    predicate IsDirectory(feLba: U32)
      requires Mounted()
    {
      Scratch(Here(), feLba).Some? && Scratch(Here(), feLba).value.isDir
    }

    /** Not the root, and with a readable File Entry. */
    predicate IsPlainNode(feLba: U32)
      requires Mounted()
    {
      feLba != state.rootFeLba && Scratch(Here(), feLba).Some?
    }

    constructor (image: seq<byte>, state: UdfState)
      requires IsBlockSize(state.blockSize)
      ensures Valid() && this.image == image && this.state == state && cache == Seed(state.rootFeLba)
    {
      this.image := image;
      this.state := state;
      this.cache := map[state.rootFeLba := FeMeta(true, Dir, 0)];
    }

    /** The cached record, or the one read from the node's File Entry, which is then cached. */
    method Resolve(feLba: U32) returns (r: VfsResult<FeMeta>)
      requires Valid()
      modifies this`cache
      ensures Valid()
      ensures cache == AfterResolve(Here(), old(cache), feLba)
      ensures r == match Resolved(Here(), old(cache), feLba)
        case Some(m) => Done(m)
        case None => Failed(Undecodable(feLba * state.blockSize))
    {
      ApplyAgrees(Here(), state.rootFeLba, cache, Stat(feLba));
      if feLba in cache {
        return Done(cache[feLba]);
      }
      var ft := FileTypeAt(Here(), feLba);
      if ft.None? {
        return Failed(Undecodable(feLba * state.blockSize));
      }
      var size := InfoLenAt(Here(), feLba);
      var m := FeMeta(ft.value == FILE_TYPE_DIRECTORY, KindOfFileType(ft.value), if size.Some? then size.value else 0);
      cache := cache[feLba := m];
      return Done(m);
    }

    /** Classify and cache each child; a later one of the same address wins. */
    method CacheChildren(es: seq<DirEntry>) returns (metas: seq<FeMeta>)
      requires Mounted()
      modifies this`cache
      ensures cache == AfterChildren(Here(), old(cache), es)
      ensures |metas| == |es| && forall k :: 0 <= k < |es| ==> metas[k] == ChildMeta(Here(), es[k])
    {
      metas := [];
      for i := 0 to |es|
        invariant cache == AfterChildren(Here(), old(cache), es[..i])
        invariant |metas| == i && forall k :: 0 <= k < i ==> metas[k] == ChildMeta(Here(), es[k])
      {
        assert es[..i + 1][..i] == es[..i];
        var ft := FileTypeAt(Here(), es[i].feLba);
        var m := if ft.Some? then FeMeta(ft.value == FILE_TYPE_DIRECTORY, KindOfFileType(ft.value), es[i].size)
                 else FeMeta(es[i].isDir, if es[i].isDir then Dir else Other, es[i].size);
        cache := cache[es[i].feLba := m];
        metas := metas + [m];
      }
      assert es[..|es|] == es;
    }

    /** A directory's children, each classified and cached. */
    method DirChildren(feLba: U32) returns (r: VfsResult<(seq<DirEntry>, seq<FeMeta>)>)
      requires Valid()
      modifies this`cache
      ensures Valid()
      ensures cache == AfterList(Here(), old(cache), feLba)
      ensures r.Done? <==> Listing(Here(), old(cache), feLba).Some?
      ensures r.Failed? ==> r.error == Undecodable(feLba * state.blockSize)
      ensures r.Done? ==>
        var (es, metas) := r.value;
        Listing(Here(), old(cache), feLba) == Some(es) &&
        |metas| == |es| && forall i :: 0 <= i < |es| ==> metas[i] == ChildMeta(Here(), es[i])
    {
      ApplyAgrees(Here(), state.rootFeLba, cache, List(feLba));
      var meta := Resolve(feLba);
      if meta.Failed? {
        return Failed(meta.error);
      }
      if !meta.value.isDir {
        return Failed(Undecodable(feLba * state.blockSize));
      }
      var children := ReadDirAtLba(Here(), feLba);
      if children.None? {
        return Failed(Undecodable(feLba * state.blockSize));
      }
      var metas := CacheChildren(children.value);
      return Done((children.value, metas));
    }

    method ReadDir(ino: FileId) returns (r: VfsResult<seq<DirItem>>)
      requires Valid()
      modifies this`cache
      ensures Valid()
      ensures LbaOf(ino).Failed? ==> cache == old(cache) && r == Failed(LbaOf(ino).error)
      ensures LbaOf(ino).Done? ==> cache == Apply(Here(), old(cache), List(LbaOf(ino).value))
      ensures LbaOf(ino).Done? ==> (r.Done? <==> Listing(Here(), old(cache), LbaOf(ino).value).Some?)
      ensures LbaOf(ino).Done? && IsDirectory(LbaOf(ino).value) ==>
        (r.Done? <==> ReadDirAt(Here(), LbaOf(ino).value).Some?)
      ensures LbaOf(ino).Done? && IsPlainNode(LbaOf(ino).value) && !IsDirectory(LbaOf(ino).value) ==> r.Failed?
      ensures r.Done? ==>
        var read := ReadDirAt(Here(), LbaOf(ino).value);
        read.Some? && |r.value| == |read.value| && forall i :: 0 <= i < |read.value| ==>
          var c := read.value[i];
          var kind := if Scratch(Here(), c.feLba).Some? then Scratch(Here(), c.feLba).value.kind
                      else if c.isDir then Dir else Other;
          r.value[i] == DirItem(c.name, Opaque(c.feLba), kind)
    {
      ListingOfReadable(Here(), state.rootFeLba, cache, if LbaOf(ino).Done? then LbaOf(ino).value else 0);
      var lba := LbaOf(ino);
      if lba.Failed? {
        return Failed(lba.error);
      }
      var children := DirChildren(lba.value);
      if children.Failed? {
        return Failed(children.error);
      }
      var (es, metas) := children.value;
      return Done(seq(|es|, i requires 0 <= i < |es| && i < |metas| =>
        DirItem(es[i].name, Opaque(es[i].feLba), metas[i].kind)));
    }

    /** The first child whose decoded name is this one, the case of ASCII letters aside. */
    method Lookup(parent: FileId, name: string, decode: Symlink.Decoder) returns (r: VfsResult<Option<FileId>>)
      requires Valid()
      modifies this`cache
      ensures Valid()
      ensures LbaOf(parent).Failed? ==> cache == old(cache) && r == Failed(LbaOf(parent).error)
      ensures LbaOf(parent).Done? ==> cache == Apply(Here(), old(cache), List(LbaOf(parent).value))
      ensures LbaOf(parent).Done? ==> (r.Done? <==> Listing(Here(), old(cache), LbaOf(parent).value).Some?)
      ensures LbaOf(parent).Done? && IsDirectory(LbaOf(parent).value) ==>
        (r.Done? <==> ReadDirAt(Here(), LbaOf(parent).value).Some?)
      ensures LbaOf(parent).Done? && IsPlainNode(LbaOf(parent).value) && !IsDirectory(LbaOf(parent).value) ==> r.Failed?
      ensures r.Done? ==>
        var read := ReadDirAt(Here(), LbaOf(parent).value);
        read.Some? && IsFirstMatch(read.value, name, decode, r.value)
    {
      ListingOfReadable(Here(), state.rootFeLba, cache, if LbaOf(parent).Done? then LbaOf(parent).value else 0);
      var lba := LbaOf(parent);
      if lba.Failed? {
        return Failed(lba.error);
      }
      var children := DirChildren(lba.value);
      if children.Failed? {
        return Failed(children.error);
      }
      var found := FindName(children.value.0, name, decode);
      return Done(found);
    }

    method Meta(ino: FileId) returns (r: VfsResult<FsMeta>)
      requires Valid()
      modifies this`cache
      ensures Valid()
      ensures LbaOf(ino).Failed? ==> cache == old(cache) && r == Failed(LbaOf(ino).error)
      ensures LbaOf(ino).Done? ==> cache == Apply(Here(), old(cache), Stat(LbaOf(ino).value))
      ensures LbaOf(ino).Done? ==>
        r == match Resolved(Here(), old(cache), LbaOf(ino).value)
          case Some(m) => Done(FsMeta(LbaOf(ino).value, m.kind, m.size))
          case None => Failed(Undecodable(LbaOf(ino).value * state.blockSize))
      ensures LbaOf(ino).Done? && IsPlainNode(LbaOf(ino).value) ==>
        var m := Scratch(Here(), LbaOf(ino).value).value;
        r == Done(FsMeta(LbaOf(ino).value, m.kind, m.size))
    {
      var lba := LbaOf(ino);
      if lba.Failed? {
        return Failed(lba.error);
      }
      var m := Resolve(lba.value);
      if m.Failed? {
        return Failed(m.error);
      }
      return Done(FsMeta(lba.value, m.value.kind, m.value.size));
    }

    /** Copy the file's bytes from `off` into the buffer, as many as there are or fit. */
    method CopyData(feLba: U32, off: nat, buf: array<byte>) returns (n: nat)
      requires Mounted()
      modifies buf
      ensures var chunk := ChunkOf(FeData(Here(), feLba), off, buf.Length);
        n == |chunk| && buf[..n] == chunk && buf[n..] == old(buf[n..])
    {
      var data := ReadFeData(Here(), feLba);
      if data.None? || off >= |data.value| {
        return 0;
      }
      n := Min(|data.value| - off, buf.Length);
      var src := data.value[off..off + n];
      assert src == ChunkOf(data, off, buf.Length);
      CopyOut(src, buf);
    }

    method ReadAt(ino: FileId, stream: StreamId, off: U64, buf: array<byte>) returns (r: VfsResult<nat>)
      requires Valid()
      modifies this`cache, buf
      ensures Valid()
      ensures LbaOf(ino).Failed? || stream.NamedStream? ==> r == Failed(Unsupported) && cache == old(cache)
      ensures LbaOf(ino).Done? && stream.DefaultStream? ==>
        cache == Apply(Here(), old(cache), Stat(LbaOf(ino).value)) &&
        (r.Done? <==> Resolved(Here(), old(cache), LbaOf(ino).value).Some?)
      ensures r.Failed? ==> buf[..] == old(buf[..])
      ensures r.Done? ==>
        var chunk := ChunkOf(FeData(Here(), LbaOf(ino).value), off, buf.Length);
        r.value == |chunk| && buf[..r.value] == chunk && buf[r.value..] == old(buf[r.value..])
      ensures r.Done? ==>
        var data := FeData(Here(), LbaOf(ino).value);
        if data.Some? && off < |data.value| then
          r.value == Min(|data.value| - off, buf.Length) &&
          forall i :: 0 <= i < r.value ==> buf[i] == data.value[off + i]
        else r.value == 0
      ensures LbaOf(ino).Done? && stream.DefaultStream? && Scratch(Here(), LbaOf(ino).value).Some? ==> r.Done?
    {
      var lba := LbaOf(ino);
      if lba.Failed? {
        return Failed(lba.error);
      }
      if stream.NamedStream? {
        return Failed(Unsupported);
      }
      var m := Resolve(lba.value);
      if m.Failed? {
        return Failed(m.error);
      }
      var n := CopyData(lba.value, off, buf);
      ghost var chunk := ChunkOf(FeData(Here(), lba.value), off, buf.Length);
      assert forall i :: 0 <= i < n ==> buf[i] == buf[..n][i] == chunk[i];
      return Done(n);
    }

    /** One allocated run at image offset 0, as long as the resolved size; none for an empty node. */
    method Extents(ino: FileId, stream: StreamId) returns (r: VfsResult<seq<RunInfo>>)
      requires Valid()
      modifies this`cache
      ensures Valid()
      ensures LbaOf(ino).Failed? || stream.NamedStream? ==> r == Failed(Unsupported) && cache == old(cache)
      ensures LbaOf(ino).Done? && stream.DefaultStream? ==>
        cache == Apply(Here(), old(cache), Stat(LbaOf(ino).value)) &&
        r == match Resolved(Here(), old(cache), LbaOf(ino).value)
          case Some(m) => Done(if m.size == 0 then [] else [RunInfo(0, m.size, Allocated)])
          case None => Failed(Undecodable(LbaOf(ino).value * state.blockSize))
      ensures LbaOf(ino).Done? && stream.DefaultStream? && IsPlainNode(LbaOf(ino).value) ==>
        var size := Scratch(Here(), LbaOf(ino).value).value.size;
        r == Done(if size == 0 then [] else [RunInfo(0, size, Allocated)])
    {
      var lba := LbaOf(ino);
      if lba.Failed? {
        return Failed(lba.error);
      }
      if stream.NamedStream? {
        return Failed(Unsupported);
      }
      var m := Resolve(lba.value);
      if m.Failed? {
        return Failed(m.error);
      }
      if m.value.size == 0 {
        return Done([]);
      }
      return Done([RunInfo(0, m.value.size, Allocated)]);
    }

    /** The target of a symbolic link, cut to `cap`; empty for any other node. */
    method ReadLink(ino: FileId, cap: nat, decode: Symlink.Decoder) returns (r: VfsResult<string>)
      requires Valid()
      modifies this`cache
      ensures Valid()
      ensures LbaOf(ino).Failed? ==> cache == old(cache) && r == Failed(LbaOf(ino).error)
      ensures LbaOf(ino).Done? ==> cache == Apply(Here(), old(cache), Stat(LbaOf(ino).value))
      ensures LbaOf(ino).Done? && Resolved(Here(), old(cache), LbaOf(ino).value).None? ==>
        r == Failed(Undecodable(LbaOf(ino).value * state.blockSize))
      ensures LbaOf(ino).Done? && Resolved(Here(), old(cache), LbaOf(ino).value).Some? ==>
        var m, data := Resolved(Here(), old(cache), LbaOf(ino).value).value, FeData(Here(), LbaOf(ino).value);
        if m.kind != Link then r == Done("")
        else if data.None? then r == Failed(Undecodable(LbaOf(ino).value * state.blockSize))
        else r == Done(Take(Symlink.Target(data.value, decode), cap))
      ensures LbaOf(ino).Done? && IsPlainNode(LbaOf(ino).value) ==>
        var kind, data := Scratch(Here(), LbaOf(ino).value).value.kind, FeData(Here(), LbaOf(ino).value);
        if kind != Link then r == Done("")
        else if data.None? then r.Failed?
        else r == Done(Take(Symlink.Target(data.value, decode), cap))
    {
      var lba := LbaOf(ino);
      if lba.Failed? {
        return Failed(lba.error);
      }
      var m := Resolve(lba.value);
      if m.Failed? {
        return Failed(m.error);
      }
      if m.value.kind != Link {
        return Done("");
      }
      var data := ReadFeData(Here(), lba.value);
      if data.None? {
        return Failed(Undecodable(lba.value * state.blockSize));
      }
      var target := Symlink.DecodeSymlinkTarget(data.value, decode);
      return Done(Take(target, cap));
    }
  }

  /** Mount an image: the root is seeded as a directory of size 0. */
  method Open(image: seq<byte>) returns (r: VfsResult<UdfVfs>)
    ensures r.Done? <==> StateOf(image).Ok? && StateOf(image).value.Some?
    ensures r.Done? ==>
      fresh(r.value) && r.value.Valid() && r.value.image == image && r.value.state == StateOf(image).value.value &&
      r.value.cache == Seed(r.value.state.rootFeLba)
    ensures StateOf(image).Err? ==> r == Failed(Io(StateOf(image).error))
    ensures StateOf(image) == Ok(None) ==> r == Failed(NoVolume)
  {
    var parsed := ParseUdfStateChecked(image);
    if parsed.Err? {
      return Failed(Io(parsed.error));
    }
    if parsed.value.None? {
      return Failed(NoVolume);
    }
    var vfs := new UdfVfs(image, parsed.value.value);
    return Done(vfs);
  }
}
