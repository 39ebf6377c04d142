/** File data does not depend on how a File Entry records it. */
module Representation {
  import opened Bytes
  import opened Tags
  import opened FileEntry

  predicate AllReadable(p: Place, es: seq<Extent>)
    requires ValidPlace(p)
  {
    forall k :: 0 <= k < |es| && Recorded(es[k]) ==> Readable(p, es[k])
  }

  lemma ReadableIsEnough(p: Place, es: seq<Extent>, total: nat)
    requires ValidPlace(p)
    ensures AllReadable(p, es) ==> DataOf(p, es, total).Some?
    ensures DataOf(p, es, total).Some? ==>
      DataOf(p, es, total).value == Fetch(p.image, Take(AllPositions(p, es), total))
  {
  }

  /**
   * What a File Entry's data depends on: the first `infoLen` positions of its
   * recorded extents, and nothing else, whenever the extents it needs can be read.
   */
  lemma DataIsIndependentOfRepresentation(p: Place, fe1: nat, fe2: nat, e1: Entry, e2: Entry)
    requires ValidPlace(p) && EntryAt(p, fe1) == Some(e1) && EntryAt(p, fe2) == Some(e2)
    requires InExtents(e1) && InExtents(e2) && e1.infoLen == e2.infoLen
    requires Take(AllPositions(p, ExtentsOf(e1)), e1.infoLen) == Take(AllPositions(p, ExtentsOf(e2)), e2.infoLen)
    ensures FeData(p, fe1).Some? && FeData(p, fe2).Some? ==> FeData(p, fe1) == FeData(p, fe2)
    ensures AllReadable(p, ExtentsOf(e1)) ==> FeData(p, fe1).Some?
    ensures AllReadable(p, ExtentsOf(e2)) ==> FeData(p, fe2).Some?
  {
    ReadableIsEnough(p, ExtentsOf(e1), e1.infoLen);
    ReadableIsEnough(p, ExtentsOf(e2), e2.infoLen);
  }

  // ----- splitting an extent -----

  lemma {:induction false} PositionsConcat(p: Place, es: seq<Extent>, fs: seq<Extent>)
    ensures AllPositions(p, es + fs) == AllPositions(p, es) + AllPositions(p, fs)
  {
    if fs == [] {
      assert es + fs == es;
    } else {
      var n := |fs| - 1;
      assert (es + fs)[..|es + fs| - 1] == es + fs[..n];
      PositionsConcat(p, es, fs[..n]);
    }
  }

  /** A recorded extent cut after `k` of its blocks. */
  predicate IsCut(p: Place, e: Extent, k: nat)
    requires ValidPlace(p)
  {
    Recorded(e) && 0 < k * p.bs < Length(e) && e.lbn + k <= U32_MAX
  }

  function FirstPart(p: Place, e: Extent, k: nat): Extent
    requires ValidPlace(p) && IsCut(p, e, k)
  {
    Extent(k * p.bs, e.lbn)
  }

  function SecondPart(p: Place, e: Extent, k: nat): Extent
    requires ValidPlace(p) && IsCut(p, e, k)
  {
    Extent(Length(e) - k * p.bs, e.lbn + k)
  }

  lemma CutPositions(p: Place, e: Extent, k: nat)
    requires ValidPlace(p) && IsCut(p, e, k)
    ensures Positions(p, FirstPart(p, e, k)) + Positions(p, SecondPart(p, e, k)) == Positions(p, e)
  {
    assert BytePos(p, SecondPart(p, e, k)) == BytePos(p, e) + k * p.bs;
  }

  lemma Monotone(a: int, b: int, c: nat)
    requires a <= b
    ensures a * c <= b * c
  {
  }

  lemma CeilUnique(len: nat, bs: nat, n: int)
    requires bs > 0 && n * bs >= len && (len > 0 ==> (n - 1) * bs < len) && (len == 0 ==> n == 0)
    ensures DivCeil(len, bs) == n
  {
    var m := DivCeil(len, bs);
    CeilBounds(len, bs);
    if len > 0 {
      if m < n {
        Monotone(m, n - 1, bs);
      } else if n < m {
        Monotone(n, m - 1, bs);
      }
    }
  }

  lemma CutCeil(len: nat, bs: nat, k: nat)
    requires bs > 0 && k * bs < len
    ensures DivCeil(k * bs, bs) == k
    ensures DivCeil(len - k * bs, bs) * bs == DivCeil(len, bs) * bs - k * bs
  {
    var n, m := DivCeil(len, bs), DivCeil(len - k * bs, bs);
    CeilBounds(len, bs);
    CeilBounds(len - k * bs, bs);
    CeilBounds(k * bs, bs);
    CeilUnique(len - k * bs, bs, n - k) by {
      assert (n - k) * bs == n * bs - k * bs;
      assert (n - k - 1) * bs == (n - 1) * bs - k * bs;
    }
    CeilUnique(k * bs, bs, k) by {
      assert (k - 1) * bs == k * bs - bs;
    }
    assert (n - k) * bs == n * bs - k * bs;
  }

  lemma CutReadable(p: Place, e: Extent, k: nat)
    requires ValidPlace(p) && IsCut(p, e, k) && Readable(p, e)
    ensures Readable(p, FirstPart(p, e, k)) && Readable(p, SecondPart(p, e, k))
  {
    CutCeil(Length(e), p.bs, k);
    CeilBounds(Length(e), p.bs);
    assert BytePos(p, SecondPart(p, e, k)) == BytePos(p, e) + k * p.bs;
  }

  /** Extent `at` of a list is cut after `blocks` of its blocks. */
  datatype Cut = Cut(at: nat, blocks: nat)

  predicate CutFits(p: Place, es: seq<Extent>, c: Cut)
    requires ValidPlace(p)
  {
    c.at < |es| && IsCut(p, es[c.at], c.blocks)
  }

  function AfterCut(p: Place, es: seq<Extent>, c: Cut): seq<Extent>
    requires ValidPlace(p) && CutFits(p, es, c)
  {
    es[..c.at] + [FirstPart(p, es[c.at], c.blocks), SecondPart(p, es[c.at], c.blocks)] + es[c.at + 1..]
  }

  lemma PartsKeepPositions(p: Place, e: Extent, k: nat)
    requires ValidPlace(p) && IsCut(p, e, k)
    ensures AllPositions(p, [FirstPart(p, e, k), SecondPart(p, e, k)]) == AllPositions(p, [e])
  {
    var a, b := FirstPart(p, e, k), SecondPart(p, e, k);
    CutPositions(p, e, k);
    assert [a, b][..1] == [a] && [a][..0] == [] && [e][..0] == [];
    assert AllPositions(p, [a]) == Positions(p, a) && AllPositions(p, [e]) == Positions(p, e);
  }

  lemma MiddleKeepsPositions(p: Place, before: seq<Extent>, x: seq<Extent>, y: seq<Extent>, after: seq<Extent>)
    requires AllPositions(p, x) == AllPositions(p, y)
    ensures AllPositions(p, before + x + after) == AllPositions(p, before + y + after)
  {
    PositionsConcat(p, before, x);
    PositionsConcat(p, before + x, after);
    PositionsConcat(p, before, y);
    PositionsConcat(p, before + y, after);
  }

  lemma CutKeepsReadable(p: Place, es: seq<Extent>, c: Cut)
    requires ValidPlace(p) && CutFits(p, es, c) && AllReadable(p, es)
    ensures AllReadable(p, AfterCut(p, es, c))
  {
    var split := AfterCut(p, es, c);
    CutReadable(p, es[c.at], c.blocks);
    forall j | 0 <= j < |split| && Recorded(split[j])
      ensures Readable(p, split[j])
    {
      if j < c.at {
        assert es[j] == split[j];
      } else if j > c.at + 1 {
        assert es[j - 1] == split[j];
      }
    }
  }

  /** Splitting a recorded extent at a block boundary changes no position, and loses no readable block. */
  lemma SplitExtent(p: Place, es: seq<Extent>, c: Cut)
    requires ValidPlace(p) && CutFits(p, es, c)
    ensures AllPositions(p, AfterCut(p, es, c)) == AllPositions(p, es)
    ensures AllReadable(p, es) ==> AllReadable(p, AfterCut(p, es, c))
  {
    var before, e, after := es[..c.at], es[c.at], es[c.at + 1..];
    assert es == before + [e] + after;
    PartsKeepPositions(p, e, c.blocks);
    MiddleKeepsPositions(p, before, [FirstPart(p, e, c.blocks), SecondPart(p, e, c.blocks)], [e], after);
    if AllReadable(p, es) {
      CutKeepsReadable(p, es, c);
    }
  }

  /** Each cut applies to what the cuts before it left. */
  predicate CutsFit(p: Place, es: seq<Extent>, cuts: seq<Cut>)
    requires ValidPlace(p)
    decreases |cuts|
  {
    cuts == [] || (CutFits(p, es, cuts[0]) && CutsFit(p, AfterCut(p, es, cuts[0]), cuts[1..]))
  }

  function AfterCuts(p: Place, es: seq<Extent>, cuts: seq<Cut>): seq<Extent>
    requires ValidPlace(p) && CutsFit(p, es, cuts)
    decreases |cuts|
  {
    if cuts == [] then es else AfterCuts(p, AfterCut(p, es, cuts[0]), cuts[1..])
  }

  lemma {:induction false} SplitExtents(p: Place, es: seq<Extent>, cuts: seq<Cut>)
    requires ValidPlace(p) && CutsFit(p, es, cuts)
    ensures AllPositions(p, AfterCuts(p, es, cuts)) == AllPositions(p, es)
    ensures AllReadable(p, es) ==> AllReadable(p, AfterCuts(p, es, cuts))
    decreases |cuts|
  {
    if cuts != [] {
      SplitExtent(p, es, cuts[0]);
      SplitExtents(p, AfterCut(p, es, cuts[0]), cuts[1..]);
    }
  }

  // ----- short and long descriptors -----

  /** Length and block; a long descriptor has eight more bytes, which the readers ignore. */
  function EncodeDescriptor(e: Extent, stride: nat, extra: seq<byte>): (d: seq<byte>)
    requires stride == 8 + |extra|
    ensures |d| == stride
  {
    Put32(e.raw) + Put32(e.lbn) + extra
  }

  predicate ExtrasFit(extras: seq<seq<byte>>, n: nat, stride: nat) {
    stride >= 8 && |extras| == n && forall k :: 0 <= k < n ==> |extras[k]| == stride - 8
  }

  /** The descriptors one after the other, each with its own further bytes. */
  function EncodeArea(es: seq<Extent>, stride: nat, extras: seq<seq<byte>>): (area: seq<byte>)
    requires ExtrasFit(extras, |es|, stride)
    ensures |area| == |es| * stride
  {
    if es == [] then []
    else
      var n := |es| - 1;
      EncodeArea(es[..n], stride, extras[..n]) + EncodeDescriptor(es[n], stride, extras[n])
  }

  lemma DecodeDescriptor(e: Extent, stride: nat, extra: seq<byte>)
    requires stride == 8 + |extra|
    ensures DescriptorAt(EncodeDescriptor(e, stride, extra), 0) == e
  {
    var d := EncodeDescriptor(e, stride, extra);
    SameFields(d, 0, Put32(e.raw), 0, 4, 0);
    SameFields(d, 4, Put32(e.lbn), 0, 4, 0);
  }

  lemma WholeDescriptors(k: nat, n: nat, stride: nat)
    requires k < n
    ensures k * stride + stride <= n * stride
  {
    assert (k + 1) * stride <= n * stride;
  }

  lemma PrefixDescriptor(a: seq<byte>, d: seq<byte>, pos: nat)
    requires pos + 8 <= |a|
    ensures DescriptorAt(a + d, pos) == DescriptorAt(a, pos)
  {
  }

  lemma SuffixDescriptor(a: seq<byte>, d: seq<byte>)
    requires |d| >= 8
    ensures DescriptorAt(a + d, |a|) == DescriptorAt(d, 0)
  {
  }

  lemma LastDescriptorInArea(es: seq<Extent>, stride: nat, extras: seq<seq<byte>>)
    requires ExtrasFit(extras, |es|, stride) && es != []
    ensures var n := |es| - 1;
      DescriptorAt(EncodeArea(es, stride, extras), |EncodeArea(es[..n], stride, extras[..n])|) == es[n]
  {
    var n := |es| - 1;
    SuffixDescriptor(EncodeArea(es[..n], stride, extras[..n]), EncodeDescriptor(es[n], stride, extras[n]));
    DecodeDescriptor(es[n], stride, extras[n]);
  }

  lemma {:induction false} DescriptorInArea(es: seq<Extent>, stride: nat, extras: seq<seq<byte>>, k: nat, pos: nat)
    requires ExtrasFit(extras, |es|, stride) && k < |es| && pos == k * stride
    ensures pos + stride <= |EncodeArea(es, stride, extras)|
    ensures DescriptorAt(EncodeArea(es, stride, extras), pos) == es[k]
    decreases |es|
  {
    var n := |es| - 1;
    WholeDescriptors(k, |es|, stride);
    if k < n {
      DescriptorInArea(es[..n], stride, extras[..n], k, pos);
      PrefixDescriptor(EncodeArea(es[..n], stride, extras[..n]), EncodeDescriptor(es[n], stride, extras[n]), pos);
    } else {
      LastDescriptorInArea(es, stride, extras);
    }
  }

  lemma WholePart(n: nat, stride: nat, tail: nat)
    requires tail < stride
    ensures (n * stride + tail) / stride == n
  {
    var q := (n * stride + tail) / stride;
    assert n * stride + tail == q * stride + (n * stride + tail) % stride;
    assert (q - n) * stride == q * stride - n * stride && (n - q) * stride == n * stride - q * stride;
    if q > n {
      Monotone(1, q - n, stride);
    } else if q < n {
      Monotone(1, n - q, stride);
    }
  }

  /** Both widths decode to the extents they encode, whatever a broken-off descriptor behind them holds. */
  lemma DecodeArea(es: seq<Extent>, stride: nat, extras: seq<seq<byte>>, tail: seq<byte>)
    requires (stride == 8 || stride == 16) && ExtrasFit(extras, |es|, stride) && |tail| < stride
    ensures Descriptors(EncodeArea(es, stride, extras) + tail, stride) == es
  {
    var whole := EncodeArea(es, stride, extras);
    WholePart(|es|, stride, |tail|);
    forall k | 0 <= k < |es|
      ensures Descriptors(whole + tail, stride)[k] == es[k]
    {
      DescriptorInArea(es, stride, extras, k, k * stride);
      PrefixDescriptor(whole, tail, k * stride);
    }
  }

  // ----- base and Extended File Entries -----

  /**
   * What a File Entry sector holds beside tag, flags, length and area, in the
   * order of the standard's field tables.
   */
  datatype Filler = Filler(
    tagRest: seq<byte>, icbHead: seq<byte>, fileType: byte, icbParent: seq<byte>, owner: seq<byte>,
    accessed: seq<byte>, modified: seq<byte>, header: seq<byte>, attributes: seq<byte>, tail: seq<byte>)

  /** An Extended File Entry has an object size before the times, and more fields behind them. */
  predicate FillerFits(f: Filler, tag: U16) {
    && |f.tagRest| == 14 && |f.icbHead| == 11 && |f.icbParent| == 6 && |f.owner| == 20 && |f.modified| == 12
    && |f.accessed| == (if tag == TAG_EFE then 28 else 20)
    && |f.header| == (if tag == TAG_EFE then 104 else 72)
    && |f.attributes| <= U32_MAX
  }

  /** Tag, ICB tag, ownership and information length: the first 64 bytes. */
  function EncodeHead(f: Filler, tag: U16, flags: U16, infoLen: U64): (s: seq<byte>)
    requires |f.tagRest| == 14 && |f.icbHead| == 11 && |f.icbParent| == 6 && |f.owner| == 20
    ensures |s| == 64
  {
    Put16(tag) + f.tagRest + (f.icbHead + [f.fileType] + f.icbParent) + (Put16(flags) + f.owner) + Put64(infoLen)
  }

  /** A File Entry of any of the three tags: the two area lengths end the header at 176, or at 216 when extended. */
  function EncodeEntry(f: Filler, tag: U16, flags: U16, infoLen: U64, area: seq<byte>): seq<byte>
    requires tag in {260, 261, 266} && FillerFits(f, tag) && |area| <= U32_MAX
  {
    EncodeHead(f, tag, flags, infoLen)
    + (f.accessed + f.modified + f.header) + (Put32(|f.attributes|) + Put32(|area|)) + f.attributes + area + f.tail
  }

  lemma HeadFields(f: Filler, tag: U16, flags: U16, infoLen: U64)
    requires |f.tagRest| == 14 && |f.icbHead| == 11 && |f.icbParent| == 6 && |f.owner| == 20
    ensures var s := EncodeHead(f, tag, flags, infoLen);
      Le16(s, 0) == tag && s[27] == f.fileType && Le16(s, 34) == flags && Le64(s, 56) == infoLen
  {
    var s := EncodeHead(f, tag, flags, infoLen);
    SameFields(s, 0, Put16(tag), 0, 2, 0);
    SameFields(s, 34, Put16(flags), 0, 2, 0);
    SameFields(s, 56, Put64(infoLen), 0, 8, 0);
  }

  lemma EntryPieces(f: Filler, tag: U16, flags: U16, infoLen: U64, area: seq<byte>)
    requires tag in {260, 261, 266} && FillerFits(f, tag) && |area| <= U32_MAX
    ensures var s, at := EncodeEntry(f, tag, flags, infoLen, area), if tag == TAG_EFE then 208 else 168;
      && |s| >= at + 8 + |f.attributes| + |area|
      && s[0..64] == EncodeHead(f, tag, flags, infoLen)
      && s[at..at + 8] == Put32(|f.attributes|) + Put32(|area|)
      && s[at + 8 + |f.attributes|..at + 8 + |f.attributes| + |area|] == area
  {
  }

  /** The modification time stands at 84, or at 92 when extended. */
  lemma ModifiedField(f: Filler, tag: U16, flags: U16, infoLen: U64, area: seq<byte>)
    requires tag in {260, 261, 266} && FillerFits(f, tag) && |area| <= U32_MAX
    ensures var s, at := EncodeEntry(f, tag, flags, infoLen, area), if tag == TAG_EFE then 92 else 84;
      |s| >= at + 12 && s[at..at + 12] == f.modified
  {
  }

  lemma LengthFields(s: seq<byte>, at: nat, a: U32, b: U32)
    requires at + 8 <= |s| && s[at..at + 8] == Put32(a) + Put32(b)
    ensures Le32(s, at) == a && Le32(s, at + 4) == b
  {
    var lens := Put32(a) + Put32(b);
    assert lens[0..8] == lens;
    SameFields(s, at, lens, 0, 8, 0);
    SameFields(s, at, lens, 0, 8, 4);
    SameFields(lens, 0, Put32(a), 0, 4, 0);
    SameFields(lens, 4, Put32(b), 0, 4, 0);
  }

  lemma HeadOf(s: seq<byte>, f: Filler, tag: U16, flags: U16, infoLen: U64)
    requires |f.tagRest| == 14 && |f.icbHead| == 11 && |f.icbParent| == 6 && |f.owner| == 20
    requires |s| >= 64 && s[0..64] == EncodeHead(f, tag, flags, infoLen)
    ensures Le16(s, 0) == tag && s[27] == f.fileType && Le16(s, 34) == flags && Le64(s, 56) == infoLen
  {
    var head := EncodeHead(f, tag, flags, infoLen);
    HeadFields(f, tag, flags, infoLen);
    assert head[0..64] == head;
    SameFields(s, 0, head, 0, 64, 0);
    SameFields(s, 0, head, 0, 64, 27);
    SameFields(s, 0, head, 0, 64, 34);
    SameFields(s, 0, head, 0, 64, 56);
  }

  lemma EntryFromFields(s: seq<byte>, tag: U16, flags: U16, infoLen: U64, attributes: U32, area: seq<byte>)
    requires tag in {260, 261, 266} && Le16(s, 0) == tag && Le16(s, 34) == flags && Le64(s, 56) == infoLen
    requires var header := if tag == TAG_EFE then 216 else 176;
      && Le32(s, header - 8) == attributes && Le32(s, header - 4) == |area|
      && header + attributes + |area| <= |s|
      && s[header + attributes..header + attributes + |area|] == area
    ensures EntryOf(s) == Some(Entry(flags % 8, infoLen, area))
  {
  }

  /** Base and Extended File Entries decode to the entry they encode. */
  lemma DecodeEntry(f: Filler, tag: U16, flags: U16, infoLen: U64, area: seq<byte>)
    requires tag in {260, 261, 266} && FillerFits(f, tag) && |area| <= U32_MAX
    ensures EntryOf(EncodeEntry(f, tag, flags, infoLen, area)) == Some(Entry(flags % 8, infoLen, area))
  {
    var s := EncodeEntry(f, tag, flags, infoLen, area);
    EntryPieces(f, tag, flags, infoLen, area);
    HeadOf(s, f, tag, flags, infoLen);
    LengthFields(s, if tag == TAG_EFE then 208 else 168, |f.attributes|, |area|);
    EntryFromFields(s, tag, flags, infoLen, |f.attributes|, area);
  }

  lemma EntryHead(f: Filler, tag: U16, flags: U16, infoLen: U64, area: seq<byte>)
    requires tag in {260, 261, 266} && FillerFits(f, tag) && |area| <= U32_MAX
    ensures var s := EncodeEntry(f, tag, flags, infoLen, area);
      IsFileEntry(s) && Le64(s, 56) == infoLen && |s| >= 64 && s[27] == f.fileType
  {
    EntryPieces(f, tag, flags, infoLen, area);
    HeadOf(EncodeEntry(f, tag, flags, infoLen, area), f, tag, flags, infoLen);
  }

  predicate RecordsWith(s: seq<byte>, f: Filler, tag: U16, flags: U16, stride: nat, extras: seq<seq<byte>>,
                        tail: seq<byte>, infoLen: U64, es: seq<Extent>)
    requires stride == 8 || stride == 16
    requires tag in {260, 261, 266}
  {
    && FillerFits(f, tag)
    && ExtrasFit(extras, |es|, stride) && |tail| < stride
    && flags % 8 == (if stride == 8 then ALLOC_SHORT else ALLOC_LONG)
    && |EncodeArea(es, stride, extras) + tail| <= U32_MAX
    && s == EncodeEntry(f, tag, flags, infoLen, EncodeArea(es, stride, extras) + tail)
  }

  /** A sector that records `es` with this tag and this width of descriptor, whatever else it holds. */
  ghost predicate Records(s: seq<byte>, tag: U16, stride: nat, infoLen: U64, es: seq<Extent>) {
    (stride == 8 || stride == 16) && tag in {260, 261, 266} &&
    exists f: Filler, flags: U16, extras: seq<seq<byte>>, tail: seq<byte> ::
      RecordsWith(s, f, tag, flags, stride, extras, tail, infoLen, es)
  }

  lemma EntryOfRecorded(s: seq<byte>, f: Filler, tag: U16, flags: U16, stride: nat, extras: seq<seq<byte>>,
                        tail: seq<byte>, infoLen: U64, es: seq<Extent>)
    requires (stride == 8 || stride == 16) && tag in {260, 261, 266}
    requires RecordsWith(s, f, tag, flags, stride, extras, tail, infoLen, es)
    ensures EntryOf(s).Some? && InExtents(EntryOf(s).value)
    ensures EntryOf(s).value.infoLen == infoLen && ExtentsOf(EntryOf(s).value) == es
  {
    DecodeArea(es, stride, extras, tail);
    DecodeEntry(f, tag, flags, infoLen, EncodeArea(es, stride, extras) + tail);
  }

  /** Whatever the header, the width and the bytes the reader ignores, an entry records its extents. */
  lemma RecordedEntry(p: Place, feLba: nat, tag: U16, stride: nat, infoLen: U64, es: seq<Extent>)
    requires ReadBlock(p.image, p.bs, feLba).Ok?
    requires Records(ReadBlock(p.image, p.bs, feLba).value, tag, stride, infoLen, es)
    ensures EntryAt(p, feLba).Some? && InExtents(EntryAt(p, feLba).value)
    ensures EntryAt(p, feLba).value.infoLen == infoLen && ExtentsOf(EntryAt(p, feLba).value) == es
  {
    var s := ReadBlock(p.image, p.bs, feLba).value;
    var f: Filler, flags: U16, extras: seq<seq<byte>>, tail: seq<byte> :|
      RecordsWith(s, f, tag, flags, stride, extras, tail, infoLen, es);
    EntryOfRecorded(s, f, tag, flags, stride, extras, tail, infoLen, es);
  }

  /** So its data is that of the extents. */
  lemma DataOfRecorded(p: Place, feLba: nat, tag: U16, stride: nat, infoLen: U64, es: seq<Extent>)
    requires ValidPlace(p) && ReadBlock(p.image, p.bs, feLba).Ok?
    requires Records(ReadBlock(p.image, p.bs, feLba).value, tag, stride, infoLen, es)
    ensures FeData(p, feLba) == DataOf(p, es, infoLen)
  {
    RecordedEntry(p, feLba, tag, stride, infoLen, es);
  }

  /**
   * Two encoded File Entries that record the same extents, up to any number of
   * cuts at block boundaries, give the same bytes.
   */
  lemma CutsAndWidthsDoNotMatter(p: Place, fe1: nat, tag1: U16, stride1: nat, fe2: nat, tag2: U16, stride2: nat,
                                 infoLen: U64, es: seq<Extent>, cuts: seq<Cut>)
    requires ValidPlace(p) && ReadBlock(p.image, p.bs, fe1).Ok? && ReadBlock(p.image, p.bs, fe2).Ok?
    requires CutsFit(p, es, cuts) && AllReadable(p, es)
    requires Records(ReadBlock(p.image, p.bs, fe1).value, tag1, stride1, infoLen, es)
    requires Records(ReadBlock(p.image, p.bs, fe2).value, tag2, stride2, infoLen, AfterCuts(p, es, cuts))
    ensures FeData(p, fe1).Some? && FeData(p, fe2) == FeData(p, fe1)
  {
    RecordedEntry(p, fe1, tag1, stride1, infoLen, es);
    RecordedEntry(p, fe2, tag2, stride2, infoLen, AfterCuts(p, es, cuts));
    SplitExtents(p, es, cuts);
    DataIsIndependentOfRepresentation(p, fe1, fe2, EntryAt(p, fe1).value, EntryAt(p, fe2).value);
  }
}
