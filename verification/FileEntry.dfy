/** File Entries (ECMA-167 part 4, sections 14.9 and 14.17) and the data their descriptors locate. */
module FileEntry {
  import opened Bytes
  import Lists
  import opened Tags

  const ALLOC_SHORT: nat := 0
  const ALLOC_LONG: nat := 1
  const ALLOC_INLINE: nat := 3

  predicate IsEntryTag(tag: U16) {
    tag == TAG_FE || tag == TAG_FE_ALT || tag == TAG_EFE
  }

  predicate IsFileEntry(s: seq<byte>) {
    IsEntryTag(TagIdent(s))
  }

  /** What the readers take from a File Entry sector. */
  datatype Entry = Entry(alloc: nat, infoLen: U64, area: seq<byte>)

  /** Where the two lengths and the area stand; an Extended File Entry has 40 more header bytes. */
  function HeaderEnd(s: seq<byte>): nat {
    if TagIdent(s) == TAG_EFE then 216 else 176
  }

  /** The entry, unless the sector is no File Entry or its area overruns the sector. */
  function EntryOf(s: seq<byte>): Option<Entry> {
    var header := HeaderEnd(s);
    var start := header + Le32(s, header - 8);
    var end := start + Le32(s, header - 4);
    if !IsFileEntry(s) || end > |s| then None
    else Some(Entry(Le16(s, 34) % 8, Le64(s, 56), s[start..end]))
  }

  // ----- allocation descriptors -----

  /** An allocation descriptor: the raw length field carries the extent type in its two high bits. */
  datatype Extent = Extent(raw: U32, lbn: U32)

  function Length(e: Extent): nat {
    e.raw % 0x4000_0000
  }

  /** Type 0 and not empty; anything else holds no recorded data. */
  predicate Recorded(e: Extent) {
    e.raw / 0x4000_0000 == 0 && Length(e) > 0
  }

  function DescriptorAt(area: seq<byte>, pos: nat): Extent {
    Extent(Le32(area, pos), Le32(area, pos + 4))
  }

  /** All whole descriptors of the area: 8 bytes each when short, 16 when long. */
  function Descriptors(area: seq<byte>, stride: nat): (es: seq<Extent>)
    requires stride == 8 || stride == 16
    ensures |es| == |area| / stride
    ensures forall k :: 0 <= k < |es| ==> es[k] == DescriptorAt(area, k * stride)
  {
    seq(|area| / stride, k requires 0 <= k => DescriptorAt(area, k * stride))
  }

  /** The partition a read happens in. */
  datatype Place = Place(image: seq<byte>, bs: nat, start: U32)

  predicate ValidPlace(p: Place) {
    IsBlockSize(p.bs)
  }

  function BytePos(p: Place, e: Extent): nat {
    (p.start + e.lbn) * p.bs
  }

  /** Every block the extent touches can be read, its last block in full. */
  predicate Readable(p: Place, e: Extent)
    requires ValidPlace(p)
  {
    BytePos(p, e) + DivCeil(Length(e), p.bs) * p.bs <= |p.image|
  }

  function Range(from: nat, n: nat): (at: seq<nat>)
    ensures |at| == n && forall i :: 0 <= i < n ==> at[i] == from + i
  {
    seq<nat>(n, i requires 0 <= i => from + i)
  }

  /** The image positions of the extent's bytes, none when it is not recorded. */
  function Positions(p: Place, e: Extent): (at: seq<nat>)
    ensures |at| == if Recorded(e) then Length(e) else 0
    ensures forall i :: 0 <= i < |at| ==> at[i] == BytePos(p, e) + i
  {
    if Recorded(e) then Range(BytePos(p, e), Length(e)) else []
  }

  /** How many bytes the recorded extents hold. */
  function Recording(es: seq<Extent>): nat {
    if es == [] then 0
    else Recording(es[..|es| - 1]) + if Recorded(es[|es| - 1]) then Length(es[|es| - 1]) else 0
  }

  /** The positions of a file's bytes: its recorded extents one after the other. */
  function AllPositions(p: Place, es: seq<Extent>): (at: seq<nat>)
    ensures |at| == Recording(es)
  {
    if es == [] then [] else AllPositions(p, es[..|es| - 1]) + Positions(p, es[|es| - 1])
  }

  function Take<T>(s: seq<T>, n: nat): (t: seq<T>)
    ensures |t| == Min(n, |s|) && t <= s
    ensures n >= |s| ==> t == s
  {
    s[..Min(n, |s|)]
  }

  function Fetch(image: seq<byte>, at: seq<nat>): (data: seq<byte>)
    ensures |data| == |at|
    ensures forall i :: 0 <= i < |at| && at[i] < |image| ==> data[i] == image[at[i]]
  {
    seq(|at|, i requires 0 <= i < |at| => if at[i] < |image| then image[at[i]] else 0)
  }

  /** A read of `total` bytes gets as far as descriptor `k` and has to read its extent. */
  predicate Needed(es: seq<Extent>, total: nat, k: nat)
    requires k < |es|
  {
    Recorded(es[k]) && Recording(es[..k]) < total
  }

  predicate NeededReadable(p: Place, es: seq<Extent>, total: nat)
    requires ValidPlace(p)
  {
    forall k :: 0 <= k < |es| && Needed(es, total, k) ==> Readable(p, es[k])
  }

  /** The first `total` bytes of the recorded extents, unless an extent the read reaches is unreadable. */
  function DataOf(p: Place, es: seq<Extent>, total: nat): Option<seq<byte>>
    requires ValidPlace(p)
  {
    if NeededReadable(p, es, total) then Some(Fetch(p.image, Take(AllPositions(p, es), total))) else None
  }

  // ----- the copy loop -----

  lemma CeilBounds(len: nat, bs: nat)
    requires bs > 0
    ensures DivCeil(len, bs) * bs >= len
    ensures len > 0 ==> DivCeil(len, bs) > 0 && (DivCeil(len, bs) - 1) * bs < len
    ensures len == 0 ==> DivCeil(len, bs) == 0
  {
    var n := DivCeil(len, bs);
    assert len + bs - 1 == n * bs + (len + bs - 1) % bs;
    assert (n - 1) * bs == n * bs - bs;
  }

  lemma Steps(i: nat, n: nat, bs: nat)
    requires i < n
    ensures (i + 1) * bs == i * bs + bs && (i + 1) * bs <= n * bs && i * bs <= (n - 1) * bs
  {
  }

  /** Block `i` of an extent starts inside it and ends within its last block. */
  lemma BlockInside(i: nat, len: nat, bs: nat)
    requires bs > 0 && i < DivCeil(len, bs)
    ensures i * bs < len && i * bs + bs == (i + 1) * bs && i * bs + bs <= DivCeil(len, bs) * bs
  {
    CeilBounds(len, bs);
    Steps(i, DivCeil(len, bs), bs);
  }

  function Slice(image: seq<byte>, pos: nat, n: nat): seq<byte> {
    if pos + n <= |image| then image[pos..pos + n] else []
  }

  /** How much of the extent has been appended when `done` of its bytes are behind the cursor. */
  function Copied(done: nat, len: nat, room: nat): nat {
    Min(done, Min(len, room))
  }

  lemma SliceConcat(image: seq<byte>, pos: nat, a: nat, b: nat)
    requires pos + a + b <= |image|
    ensures Slice(image, pos, a + b) == Slice(image, pos, a) + Slice(image, pos + a, b)
  {
  }

  lemma CopyBlock(image: seq<byte>, pos: nat, done: nat, bs: nat, len: nat, room: nat, take: nat)
    requires done < len && pos + done + bs <= |image|
    requires take == Min(Min(len - done, bs), room - Copied(done, len, room))
    ensures Copied(done + bs, len, room) == Copied(done, len, room) + take
    ensures Slice(image, pos, Copied(done + bs, len, room)) ==
      Slice(image, pos, Copied(done, len, room)) + image[pos + done..pos + done + bs][..take]
  {
    if take > 0 {
      SliceConcat(image, pos, done, take);
    }
  }

  /** The first `done` bytes of the extent are copied behind `before`, as far as there is room. */
  ghost predicate CopiedSoFar(image: seq<byte>, pos: nat, len: nat, done: nat, before: seq<byte>, room: nat,
      data: seq<byte>) {
    && (done > 0 ==> pos + done <= |image|)
    && data == before + Slice(image, pos, Copied(done, len, room))
    && |data| == |before| + Copied(done, len, room)
  }

  lemma NothingCopied(image: seq<byte>, pos: nat, len: nat, before: seq<byte>, room: nat)
    ensures CopiedSoFar(image, pos, len, 0, before, room, before)
  {
    assert Slice(image, pos, 0) == [] && before + [] == before;
  }

  lemma CopyNext(image: seq<byte>, pos: nat, bs: nat, len: nat, done: nat, before: seq<byte>, room: nat,
      data: seq<byte>, take: nat)
    requires bs > 0 && done < len && pos + done + bs <= |image| &&
      CopiedSoFar(image, pos, len, done, before, room, data)
    requires take == Min(Min(len - done, bs), room - Copied(done, len, room))
    ensures CopiedSoFar(image, pos, len, done + bs, before, room, data + image[pos + done..pos + done + bs][..take])
  {
    CopyBlock(image, pos, done, bs, len, room, take);
    Lists.Regroup(before, Slice(image, pos, Copied(done, len, room)), image[pos + done..pos + done + bs][..take]);
  }

  lemma AllCopied(image: seq<byte>, pos: nat, len: nat, done: nat, before: seq<byte>, room: nat, data: seq<byte>)
    requires done >= len && CopiedSoFar(image, pos, len, done, before, room, data)
    ensures var n := Min(len, room);
      (n > 0 ==> pos + n <= |image|) && data == before + Slice(image, pos, n)
  {
  }

  /** Append the extent block by block, up to `total` bytes; every block has to be readable, wanted or not. */
  method ReadExtent(p: Place, pos: nat, len: nat, total: nat, before: seq<byte>) returns (r: Option<seq<byte>>)
    requires ValidPlace(p)
    ensures r.Some? <==> len == 0 || pos + DivCeil(len, p.bs) * p.bs <= |p.image|
    ensures r.Some? ==>
      var n := Min(len, Max(total - |before|, 0));
      (n > 0 ==> pos + n <= |p.image|) && r.value == before + Slice(p.image, pos, n)
  {
    var data := before;
    var sectors := DivCeil(len, p.bs);
    ghost var room := Max(total - |before|, 0);
    ghost var done := 0;
    NothingCopied(p.image, pos, len, before, room);
    CeilBounds(len, p.bs);
    for i := 0 to sectors
      invariant done == i * p.bs
      invariant CopiedSoFar(p.image, pos, len, done, before, room, data)
    {
      BlockInside(i, len, p.bs);
      var offset := i * p.bs;
      var read := ReadExact(p.image, pos + offset, p.bs);
      if read.Err? {
        return None;
      }
      var remaining := Max(total - |data|, 0);
      var sectorBytes := Min(len - offset, p.bs);
      var take := Min(sectorBytes, remaining);
      CopyNext(p.image, pos, p.bs, len, done, before, room, data, take);
      data := data + read.value[..take];
      done := done + p.bs;
    }
    AllCopied(p.image, pos, len, done, before, room, data);
    return Some(data);
  }

  /** The recorded positions of a prefix of the descriptors are a prefix of all of them. */
  lemma {:induction false} PrefixPositions(p: Place, es: seq<Extent>, k: nat)
    requires k <= |es|
    ensures AllPositions(p, es[..k]) <= AllPositions(p, es)
    ensures Recording(es[..k]) <= Recording(es)
    decreases |es| - k
  {
    if k == |es| {
      assert es[..k] == es;
    } else {
      assert es[..k + 1][..k] == es[..k];
      PrefixPositions(p, es, k + 1);
    }
  }

  /** One more recorded extent adds its slice, cut where `total` is reached. */
  lemma AppendExtent(p: Place, es: seq<Extent>, k: nat, total: nat)
    requires ValidPlace(p) && k < |es| && Recorded(es[k]) && Recording(es[..k]) < total
    requires Readable(p, es[k])
    ensures var n := Min(Length(es[k]), total - Recording(es[..k]));
      BytePos(p, es[k]) + n <= |p.image| &&
      Fetch(p.image, Take(AllPositions(p, es[..k + 1]), total)) ==
        Fetch(p.image, Take(AllPositions(p, es[..k]), total)) + Slice(p.image, BytePos(p, es[k]), n)
  {
    CeilBounds(Length(es[k]), p.bs);
    assert es[..k + 1][..k] == es[..k];
    var at := AllPositions(p, es[..k]);
    assert Take(at, total) == at;
    assert AllPositions(p, es[..k + 1]) == at + Positions(p, es[k]);
  }

  /** The copy has dealt with the first `k` descriptors. */
  ghost predicate Gathered(p: Place, es: seq<Extent>, total: nat, k: nat, data: seq<byte>)
    requires ValidPlace(p)
  {
    && k <= |es|
    && (forall j :: 0 <= j < k && Needed(es, total, j) ==> Readable(p, es[j]))
    && data == Fetch(p.image, Take(AllPositions(p, es[..k]), total))
  }

  /** The cursor of a descriptor walk. */
  ghost predicate AtDescriptor(area: seq<byte>, stride: nat, k: nat, pos: nat) {
    (stride == 8 || stride == 16) && pos == k * stride && pos <= |area|
  }

  lemma NextDescriptor(area: seq<byte>, stride: nat, k: nat, pos: nat)
    requires AtDescriptor(area, stride, k, pos) && pos + stride <= |area|
    ensures k < |Descriptors(area, stride)|
    ensures Descriptors(area, stride)[k] == Extent(Le32(area, pos), Le32(area, pos + 4))
    ensures AtDescriptor(area, stride, k + 1, pos + stride)
  {
  }

  lemma LastDescriptor(area: seq<byte>, stride: nat, k: nat, pos: nat)
    requires AtDescriptor(area, stride, k, pos)
    ensures k <= |Descriptors(area, stride)|
    ensures pos + stride > |area| ==> k == |Descriptors(area, stride)|
  {
  }

  lemma GatherRecorded(p: Place, es: seq<Extent>, total: nat, k: nat, data: seq<byte>, more: seq<byte>)
    requires ValidPlace(p) && Gathered(p, es, total, k, data) && k < |es| && |data| < total
    requires Recorded(es[k]) && Readable(p, es[k])
    requires more == data + Slice(p.image, BytePos(p, es[k]), Min(Length(es[k]), total - |data|))
    ensures Gathered(p, es, total, k + 1, more)
  {
    AppendExtent(p, es, k, total);
  }

  lemma GatherFails(p: Place, es: seq<Extent>, total: nat, k: nat, data: seq<byte>)
    requires ValidPlace(p) && Gathered(p, es, total, k, data) && k < |es| && |data| < total
    requires Recorded(es[k]) && !Readable(p, es[k])
    ensures DataOf(p, es, total) == None
  {
    assert Needed(es, total, k);
  }

  lemma GatherSkipped(p: Place, es: seq<Extent>, total: nat, k: nat, data: seq<byte>)
    requires ValidPlace(p) && Gathered(p, es, total, k, data) && k < |es|
    requires !Recorded(es[k])
    ensures Gathered(p, es, total, k + 1, data)
  {
    assert es[..k + 1][..k] == es[..k];
    assert AllPositions(p, es[..k + 1]) == AllPositions(p, es[..k]);
  }

  /** Once `total` bytes are there no later extent is read. */
  lemma NothingNeededAfter(p: Place, es: seq<Extent>, k: nat, total: nat)
    requires k <= |es| && (k == |es| || Recording(es[..k]) >= total)
    ensures forall j :: k <= j < |es| ==> !Needed(es, total, j)
  {
    forall j | k <= j < |es|
      ensures !Needed(es, total, j)
    {
      assert es[..j][..k] == es[..k];
      PrefixPositions(p, es[..j], k);
    }
  }

  lemma AllGathered(p: Place, es: seq<Extent>, total: nat, k: nat, data: seq<byte>)
    requires ValidPlace(p) && Gathered(p, es, total, k, data)
    requires k == |es| || |data| >= total
    ensures DataOf(p, es, total) == Some(data)
  {
    PrefixPositions(p, es, k);
    NothingNeededAfter(p, es, k, total);
    if k == |es| {
      assert es[..k] == es;
    }
    assert Take(AllPositions(p, es[..k]), total) == Take(AllPositions(p, es), total);
  }

  method ReadExtents(p: Place, area: seq<byte>, stride: nat, total: nat) returns (r: Option<seq<byte>>)
    requires ValidPlace(p) && (stride == 8 || stride == 16)
    ensures r == DataOf(p, Descriptors(area, stride), total)
  {
    ghost var es := Descriptors(area, stride);
    ghost var k := 0;
    var data: seq<byte> := [];
    var pos: nat := 0;
    while pos + stride <= |area| && |data| < total
      invariant AtDescriptor(area, stride, k, pos) && Gathered(p, es, total, k, data)
      decreases |area| - pos
    {
      NextDescriptor(area, stride, k, pos);
      var e := Extent(Le32(area, pos), Le32(area, pos + 4));
      if Recorded(e) {
        var more := ReadExtent(p, BytePos(p, e), Length(e), total, data);
        if more.None? {
          GatherFails(p, es, total, k, data);
          return None;
        }
        GatherRecorded(p, es, total, k, data, more.value);
        data := more.value;
      } else {
        GatherSkipped(p, es, total, k, data);
      }
      pos := pos + stride;
      k := k + 1;
    }
    LastDescriptor(area, stride, k, pos);
    AllGathered(p, es, total, k, data);
    assert |data| <= total; // the final truncation changes nothing
    return Some(Take(data, total));
  }

  // ----- the data of a File Entry -----

  function Stride(alloc: nat): nat
    requires alloc == ALLOC_SHORT || alloc == ALLOC_LONG
  {
    if alloc == ALLOC_SHORT then 8 else 16
  }

  predicate InExtents(e: Entry) {
    e.alloc == ALLOC_SHORT || e.alloc == ALLOC_LONG
  }

  function ExtentsOf(e: Entry): seq<Extent>
    requires InExtents(e)
  {
    Descriptors(e.area, Stride(e.alloc))
  }

  function EntryData(p: Place, e: Entry): Option<seq<byte>>
    requires ValidPlace(p)
  {
    if e.alloc == ALLOC_INLINE then Some(Take(e.area, e.infoLen))
    else if InExtents(e) then DataOf(p, ExtentsOf(e), e.infoLen)
    else None
  }

  function EntryAt(p: Place, feLba: nat): Option<Entry> {
    var read := ReadBlock(p.image, p.bs, feLba);
    if read.Err? then None else EntryOf(read.value)
  }

  /** The recorded length of a File Entry, its area unread. */
  function InfoLenAt(p: Place, feLba: nat): Option<U64> {
    var read := ReadBlock(p.image, p.bs, feLba);
    if read.Err? || !IsFileEntry(read.value) then None else Some(Le64(read.value, 56))
  }

  function FeData(p: Place, feLba: nat): Option<seq<byte>>
    requires ValidPlace(p)
  {
    match EntryAt(p, feLba)
    case None => None
    case Some(e) => EntryData(p, e)
  }

  method ReadFeData(p: Place, feLba: U32) returns (r: Option<seq<byte>>)
    requires ValidPlace(p)
    ensures r == FeData(p, feLba)
  {
    var read := ReadBlock(p.image, p.bs, feLba);
    if read.Err? {
      return None;
    }
    var entry := EntryOf(read.value);
    if entry.None? {
      return None;
    }
    var e := entry.value;
    if e.alloc == ALLOC_INLINE {
      return Some(Take(e.area, e.infoLen));
    } else if e.alloc == ALLOC_SHORT {
      r := ReadExtents(p, e.area, 8, e.infoLen);
    } else if e.alloc == ALLOC_LONG {
      r := ReadExtents(p, e.area, 16, e.infoLen);
    } else {
      return None;
    }
  }

  // ----- what the data is -----

  /** The descriptor that holds byte `i`. */
  function ExtentOf(es: seq<Extent>, i: nat): (k: nat)
    requires i < Recording(es)
    ensures k < |es|
  {
    if i < Recording(es[..|es| - 1]) then ExtentOf(es[..|es| - 1], i) else |es| - 1
  }

  lemma {:induction false} PositionInExtent(p: Place, es: seq<Extent>, i: nat)
    requires i < Recording(es)
    ensures var k := ExtentOf(es, i);
      && Recorded(es[k])
      && Recording(es[..k]) <= i < Recording(es[..k]) + Length(es[k])
      && AllPositions(p, es)[i] == BytePos(p, es[k]) + (i - Recording(es[..k]))
  {
    var n := |es| - 1;
    if i < Recording(es[..n]) {
      PositionInExtent(p, es[..n], i);
      assert es[..n][..ExtentOf(es, i)] == es[..ExtentOf(es, i)];
    }
  }

  /**
   * A successful read holds the first `total` bytes of the recorded extents in
   * order, each byte the image's byte at its position; it holds fewer only when
   * the recorded extents do.
   */
  lemma DataIsPrefix(p: Place, es: seq<Extent>, total: nat)
    requires ValidPlace(p) && NeededReadable(p, es, total)
    ensures var data, at := DataOf(p, es, total).value, AllPositions(p, es);
      |data| == Min(total, Recording(es)) &&
      forall i :: 0 <= i < |data| ==> at[i] < |p.image| && data[i] == p.image[at[i]]
  {
    var at := Take(AllPositions(p, es), total);
    forall i | 0 <= i < |at|
      ensures at[i] < |p.image|
    {
      PositionInExtent(p, es, i);
      var k := ExtentOf(es, i);
      PrefixPositions(p, es, k);
      CeilBounds(Length(es[k]), p.bs);
    }
  }

  // ----- the fields and cases by number -----

  /** Base, alternative base and Extended File Entries are the entries; everything else has no data. */
  lemma EntryTags(s: seq<byte>)
    ensures IsFileEntry(s) <==> Le16(s, 0) == 260 || Le16(s, 0) == 261 || Le16(s, 0) == 266
    ensures !IsFileEntry(s) ==> EntryOf(s).None?
  {
  }

  /** Where an entry's fields stand, and when its area overruns the sector. */
  lemma EntryFields(s: seq<byte>)
    requires IsFileEntry(s)
    ensures var header := if Le16(s, 0) == 266 then 216 else 176;
      var from := header + Le32(s, header - 8);
      var to := from + Le32(s, header - 4);
      EntryOf(s) == if to > |s| then None else Some(Entry(Le16(s, 34) % 8, Le64(s, 56), s[from..to]))
  {
  }

  /** Types 0 and 1 are read through descriptors of 8 and 16 bytes, type 3 is cut from the area, others have no data. */
  lemma DataByAllocation(p: Place, feLba: nat, e: Entry)
    requires ValidPlace(p) && EntryAt(p, feLba) == Some(e)
    ensures e.alloc == 0 ==> FeData(p, feLba) == DataOf(p, Descriptors(e.area, 8), e.infoLen)
    ensures e.alloc == 1 ==> FeData(p, feLba) == DataOf(p, Descriptors(e.area, 16), e.infoLen)
    ensures e.alloc == 3 ==>
      FeData(p, feLba) == Some(if e.infoLen <= |e.area| then e.area[..e.infoLen] else e.area)
    ensures e.alloc != 0 && e.alloc != 1 && e.alloc != 3 ==> FeData(p, feLba).None?
  {
  }

  /** An unreadable block, or one without an entry's tag, has neither data nor a length. */
  lemma NoEntryNoData(p: Place, feLba: nat)
    requires ValidPlace(p)
    ensures var read := ReadBlock(p.image, p.bs, feLba);
      var entry := read.Ok? && (Le16(read.value, 0) == 260 || Le16(read.value, 0) == 261 || Le16(read.value, 0) == 266);
      && (InfoLenAt(p, feLba) == if entry then Some(Le64(read.value, 56)) else None)
      && (!entry ==> FeData(p, feLba).None?)
  {
  }

  /** An extent of type 0 that is not empty adds its bytes from its block on; any other adds none. */
  lemma PositionsOfOne(p: Place, raw: U32, lbn: U32)
    ensures var at := AllPositions(p, [Extent(raw, lbn)]);
      && |at| == (if raw < 0x4000_0000 then raw else 0)
      && forall i :: 0 <= i < |at| ==> at[i] == (p.start + lbn) * p.bs + i
  {
    var e := Extent(raw, lbn);
    assert [e][..0] == [];
    assert AllPositions(p, [e]) == Positions(p, e);
  }
}
