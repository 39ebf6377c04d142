/** Whole images that mount, on which the reader or the auditor falls short of what its comments say. */
module Specimens {
  import opened Bytes
  import opened Tags
  import opened Volume
  import opened FileEntry
  import opened Mastering
  import Lists
  import Analyze
  import Bootstrap
  import Fids
  import FidStream
  import PartitionMaps
  import Representation
  import Slack
  import Vfs
  import Walk

  // ----- images made of blocks -----

  const BS: nat := 2048

  /** A block that starts with these fields and is zero behind them. */
  function Sector(fields: seq<byte>): (s: seq<byte>)
    requires |fields| <= BS
    ensures |s| == BS && StartsWith(s, fields)
  {
    fields + Fill(BS - |fields|)
  }

  predicate AreSectors(blocks: map<nat, seq<byte>>) {
    forall lba :: lba in blocks ==> |blocks[lba]| == BS
  }

  /** `n` blocks: those given, zero elsewhere. */
  function Image(n: nat, blocks: map<nat, seq<byte>>): (image: seq<byte>)
    requires AreSectors(blocks)
    ensures |image| == n * BS
    ensures forall i :: 0 <= i < n * BS ==> image[i] == if i / BS in blocks then blocks[i / BS][i % BS] else 0
  {
    seq(n * BS, i requires 0 <= i => if i / BS in blocks then blocks[i / BS][i % BS] else 0)
  }

  lemma BlockInImage(n: nat, blocks: map<nat, seq<byte>>, lba: nat)
    requires AreSectors(blocks) && lba < n
    ensures ReadBlock(Image(n, blocks), BS, lba) == Ok(if lba in blocks then blocks[lba] else Fill(BS))
  {
    var image := Image(n, blocks);
    var s := image[lba * BS..lba * BS + BS];
    var block := if lba in blocks then blocks[lba] else Fill(BS);
    forall j | 0 <= j < BS
      ensures s[j] == block[j]
    {
      assert (lba * BS + j) / BS == lba && (lba * BS + j) % BS == j;
      assert s[j] == image[lba * BS + j];
    }
    assert s == block;
  }

  // ----- tags without a body CRC -----

  /** A tag with this checksum byte; serial number, CRC and CRC length are zero. */
  function TagWith(sum: byte, location: U32): (t: TagRest)
    ensures |t.middle| == 10
  {
    TagRest([0, 0] + [sum] + Fill(7), location)
  }

  /** The checksum such a tag has to carry. */
  function SumOf(tag: U16, location: U32): byte {
    (ByteSum(Put16(tag)) + ByteSum(Put32(location))) % 0x100
  }

  function WrongSum(tag: U16, location: U32): (sum: byte)
    ensures sum != SumOf(tag, location)
  {
    (SumOf(tag, location) + 1) % 0x100
  }

  lemma {:induction false} ByteSumConcat(a: seq<byte>, b: seq<byte>)
    ensures ByteSum(a + b) == ByteSum(a) + ByteSum(b)
    decreases |b|
  {
    if b == [] {
      assert a + b == a;
    } else {
      assert (a + b)[..|a + b| - 1] == a + b[..|b| - 1];
      ByteSumConcat(a, b[..|b| - 1]);
    }
  }

  lemma {:induction false} ByteSumFill(n: nat)
    ensures ByteSum(Fill(n)) == 0
  {
    if n > 0 {
      assert Fill(n)[..n - 1] == Fill(n - 1);
      ByteSumFill(n - 1);
    }
  }

  lemma ByteSumOne(b: byte)
    ensures ByteSum([b]) == b
  {
    assert [b][..0] == [];
  }

  lemma TagSum(tag: U16, sum: byte, location: U32)
    ensures ByteSum(EncodeTag(tag, TagWith(sum, location))) == ByteSum(Put16(tag)) + sum + ByteSum(Put32(location))
  {
    var middle := TagWith(sum, location).middle;
    assert [0, 0] == Fill(2);
    ByteSumFill(2);
    ByteSumFill(7);
    ByteSumOne(sum);
    ByteSumConcat([0, 0], [sum]);
    ByteSumConcat([0, 0] + [sum], Fill(7));
    ByteSumConcat(Put16(tag), middle);
    ByteSumConcat(Put16(tag) + middle, Put32(location));
  }

  /** Its fields: the identifier and the checksum byte, no CRC and nothing covered by it. */
  lemma TagFields(s: seq<byte>, tag: U16, sum: byte, location: U32)
    requires |s| >= 16 && StartsWith(s, EncodeTag(tag, TagWith(sum, location)))
    ensures s[..16] == EncodeTag(tag, TagWith(sum, location)) && TagIdent(s) == tag && s[4] == sum
    ensures StoredCrc(s) == 0 && CrcLength(s) == 0
  {
    var t := EncodeTag(tag, TagWith(sum, location));
    assert s[..16] == s[0..16] == t;
    assert t[0..2] == Put16(tag)[0..2];
    SameFields(s, 0, t, 0, 16, 0);
    SameFields(t, 0, Put16(tag), 0, 2, 0);
    assert t[4] == sum && t[8] == 0 && t[9] == 0 && t[10] == 0 && t[11] == 0;
    assert s[4] == t[4] && s[8] == t[8] && s[9] == t[9] && s[10] == t[10] && s[11] == t[11];
  }

  /** A block with such a tag passes the audit exactly when its checksum is right. */
  lemma TagPasses(s: seq<byte>, tag: U16, sum: byte, location: U32)
    requires |s| >= 16 && StartsWith(s, EncodeTag(tag, TagWith(sum, location))) && DescriptorLabel(tag).Some?
    ensures Recognised(s) && (Bootstrap.Sound(s) <==> sum == SumOf(tag, location))
  {
    TagFields(s, tag, sum, location);
    TagSum(tag, sum, location);
    assert Body(s) == [];
  }

  // ----- a volume -----

  lemma OneRecord(maps: seq<PartitionMaps.MapRecord>)
    requires |maps| == 1 && PartitionMaps.Encodable(maps[0]) && maps[0].content.kind == PartitionMaps.Physical
    ensures (forall m :: m in maps ==> PartitionMaps.Encodable(m)) && |MapTable(maps)| == 6
  {
    assert maps == [maps[0]];
    var recs := PartitionMaps.EncodeAll(maps);
    assert PartitionMaps.Flatten(recs) == recs[0] + PartitionMaps.Flatten(recs[1..]);
    assert recs[0] == PartitionMaps.EncodeMap(maps[0]) && |recs[0]| == 6;
    assert recs[1..] == [];
  }

  /** A single type 1 map, on volume 1 of its set. */
  function OneMap(number: U16): (maps: seq<PartitionMaps.MapRecord>)
    ensures forall m :: m in maps ==> PartitionMaps.Encodable(m)
    ensures |maps| == 1 && |MapTable(maps)| == 6 && maps[0].content.kind == PartitionMaps.Physical
  {
    var maps := [PartitionMaps.MapRecord(PartitionMaps.PartitionMap(PartitionMaps.Physical, Some(number)), [1, 0], [])];
    OneRecord(maps);
    maps
  }

  predicate IsSequenceAt(loc: nat) {
    257 <= loc <= 297 || loc > 300
  }

  /** 2048-byte blocks and one partition from block 300 on, the File Set Descriptor first, then the root directory. */
  predicate IsLaidOut(v: Plan) {
    PlanFits(v) && v.bs == BS && v.start == 300 && v.fsdLbn == 0 && v.rootLbn == 1 && v.len == 3 * BS &&
      IsSequenceAt(v.loc) && v.layout == Layout(v.loc, v.loc + 1, v.loc + 2) &&
      v.partRef == 0 && |v.maps| == 1 && |MapTable(v.maps)| == 6 && v.maps[0].content.kind == PartitionMaps.Physical
  }

  /** A volume's five blocks at their places, and more blocks elsewhere. */
  function Merge(loc: nat, avdp: seq<byte>, pd: seq<byte>, lvd: seq<byte>, term: seq<byte>, fsd: seq<byte>,
                 extra: map<nat, seq<byte>>): (blocks: map<nat, seq<byte>>)
    ensures IsSequenceAt(loc) ==>
      && ANCHOR in blocks && loc in blocks && loc + 1 in blocks && loc + 2 in blocks && 300 in blocks
      && blocks[ANCHOR] == avdp && blocks[loc] == pd && blocks[loc + 1] == lvd && blocks[loc + 2] == term &&
        blocks[300] == fsd
  {
    extra + map[ANCHOR := avdp, loc := pd, loc + 1 := lvd, loc + 2 := term, 300 := fsd]
  }

  lemma MergeOther(loc: nat, avdp: seq<byte>, pd: seq<byte>, lvd: seq<byte>, term: seq<byte>, fsd: seq<byte>,
                   extra: map<nat, seq<byte>>, lba: nat)
    requires lba != ANCHOR && lba != 300 && !(loc <= lba <= loc + 2)
    ensures var blocks := Merge(loc, avdp, pd, lvd, term, fsd, extra);
      (lba in blocks <==> lba in extra) && (lba in extra ==> blocks[lba] == extra[lba])
  {
  }

  /** The blocks of a planned volume. */
  function Blocks(v: Plan, extra: map<nat, seq<byte>>): (blocks: map<nat, seq<byte>>)
    requires IsLaidOut(v) && AreSectors(extra)
    ensures AreSectors(blocks)
  {
    Merge(v.loc, Sector(EncodeAnchor(v.anchor, v.len, v.loc)), Sector(EncodePd(v.pd, v.number, v.start)),
      Sector(EncodeLvd(v.lvd, v.fsdLbn, v.partRef, v.maps)), Sector(Put16(TAG_TERM)),
      Sector(EncodeFsd(v.fsd, v.rootLbn)), extra)
  }

  function Medium(v: Plan, extra: map<nat, seq<byte>>): seq<byte>
    requires IsLaidOut(v) && AreSectors(extra)
  {
    Image(v.loc + 400, Blocks(v, extra))
  }

  lemma Placed(n: nat, blocks: map<nat, seq<byte>>, lba: nat, fields: seq<byte>)
    requires AreSectors(blocks) && lba < n && lba in blocks && |fields| <= BS && blocks[lba] == Sector(fields)
    ensures BlockHolds(Image(n, blocks), BS, lba, fields)
  {
    BlockInImage(n, blocks, lba);
  }

  lemma MediumCarries(v: Plan, extra: map<nat, seq<byte>>)
    requires IsLaidOut(v) && AreSectors(extra)
    ensures Carries(Medium(v, extra), v)
  {
    var n, blocks := v.loc + 400, Blocks(v, extra);
    Placed(n, blocks, ANCHOR, EncodeAnchor(v.anchor, v.len, v.loc));
    Placed(n, blocks, v.loc, EncodePd(v.pd, v.number, v.start));
    Placed(n, blocks, v.loc + 1, EncodeLvd(v.lvd, v.fsdLbn, v.partRef, v.maps));
    Placed(n, blocks, v.loc + 2, Put16(TAG_TERM));
    TerminatorStops(blocks[v.loc + 2]);
    assert IsEnd(Image(n, blocks), BS, v.loc + 2);
    Placed(n, blocks, 300, EncodeFsd(v.fsd, v.rootLbn));
  }

  function StateAt(loc: U32): UdfState {
    UdfState(300, 301, PartitionMaps.Physical, 1, BS, 300, loc, 3)
  }

  lemma PlannedState(v: Plan)
    requires IsLaidOut(v)
    ensures StateOfPlan(v) == StateAt(v.loc)
  {
  }

  lemma Mounts(v: Plan, extra: map<nat, seq<byte>>)
    requires IsLaidOut(v) && AreSectors(extra)
    ensures StateOf(Medium(v, extra)) == Ok(Some(StateAt(v.loc)))
  {
    MediumCarries(v, extra);
    PlanMountsFirst(Medium(v, extra), v);
    PlannedState(v);
  }

  lemma OtherBlock(v: Plan, extra: map<nat, seq<byte>>, lba: nat)
    requires IsLaidOut(v) && AreSectors(extra) && lba != ANCHOR && lba != 300 && !(v.loc <= lba <= v.loc + 2)
    ensures var blocks := Blocks(v, extra);
      (lba in blocks <==> lba in extra) && (lba in extra ==> blocks[lba] == extra[lba])
  {
    MergeOther(v.loc, Sector(EncodeAnchor(v.anchor, v.len, v.loc)), Sector(EncodePd(v.pd, v.number, v.start)),
      Sector(EncodeLvd(v.lvd, v.fsdLbn, v.partRef, v.maps)), Sector(Put16(TAG_TERM)),
      Sector(EncodeFsd(v.fsd, v.rootLbn)), extra, lba);
  }

  /** Blocks beside the volume's own are the extra ones, or zero. */
  lemma ExtraBlock(v: Plan, extra: map<nat, seq<byte>>, lba: nat)
    requires IsLaidOut(v) && AreSectors(extra) && lba < v.loc + 400 && lba != ANCHOR && lba != 300 &&
      !(v.loc <= lba <= v.loc + 2)
    ensures ReadBlock(Medium(v, extra), BS, lba) == Ok(if lba in extra then extra[lba] else Fill(BS))
  {
    OtherBlock(v, extra, lba);
    BlockInImage(v.loc + 400, Blocks(v, extra), lba);
  }

  /** The plan's tags: every checksum right but perhaps that of the Logical Volume Descriptor, no CRC. */
  predicate IsPlain(v: Plan, lvdSum: byte) {
    && v.anchor == TagWith(SumOf(TAG_AVDP, 256), 256) && v.pd.tag == TagWith(SumOf(TAG_PD, 0), 0)
    && v.lvd.tag == TagWith(lvdSum, 0) && v.fsd.tag == TagWith(SumOf(TAG_FSD, 0), 0)
  }

  function PlanAt(loc: U32, lvdSum: byte): (v: Plan)
    ensures v.loc == loc && IsPlain(v, lvdSum) && (IsSequenceAt(loc) ==> IsLaidOut(v))
  {
    Plan(BS, TagWith(SumOf(TAG_AVDP, 256), 256), 3 * BS, loc, Layout(loc, loc + 1, loc + 2),
      PdRest(TagWith(SumOf(TAG_PD, 0), 0), Fill(6), Fill(164)), 0, 300,
      LvdRest(TagWith(lvdSum, 0), Fill(232), 0, Fill(6), Fill(168)), 0, 0, OneMap(0),
      FsdRest(TagWith(SumOf(TAG_FSD, 0), 0), Fill(12), Fill(20), Fill(352), 0), 1)
  }

  // ----- a sequence that runs past the top of `u32` -----

  /**
   * A sound Partition Descriptor in the last `u32` block, a Logical Volume Descriptor with a bad
   * checksum behind it.
   */
  function EdgeMedium(): seq<byte> {
    Medium(PlanAt(U32_MAX, WrongSum(TAG_LVD, 0)), map[])
  }

  lemma AnchorTag(s: seq<byte>, t: TagRest, len: U32, loc: U32)
    requires |t.middle| == 10 && StartsWith(s, EncodeAnchor(t, len, loc))
    ensures StartsWith(s, EncodeTag(TAG_AVDP, t))
  {
    PrefixIn(s, EncodeTag(TAG_AVDP, t), Put32(len) + Put32(loc));
  }

  lemma PdTag(s: seq<byte>, r: PdRest, number: U16, start: U32)
    requires PdFits(r) && StartsWith(s, EncodePd(r, number, start))
    ensures StartsWith(s, EncodeTag(TAG_PD, r.tag))
  {
    var tag := EncodeTag(TAG_PD, r.tag);
    PrefixIn(s, tag + r.head + Put16(number) + r.contents, Put32(start));
    PrefixIn(s, tag + r.head + Put16(number), r.contents);
    PrefixIn(s, tag + r.head, Put16(number));
    PrefixIn(s, tag, r.head);
  }

  lemma LvdTag(s: seq<byte>, r: LvdRest, fsdLbn: U32, partRef: U16, maps: seq<PartitionMaps.MapRecord>)
    requires LvdEncodable(r, maps) && StartsWith(s, EncodeLvd(r, fsdLbn, partRef, maps))
    ensures StartsWith(s, EncodeTag(TAG_LVD, r.tag))
  {
    LvdBegins(s, r, fsdLbn, partRef, maps);
    PrefixIn(s, EncodeTag(TAG_LVD, r.tag) + r.head, Put32(r.extent));
    PrefixIn(s, EncodeTag(TAG_LVD, r.tag), r.head);
  }

  lemma FsdTag(s: seq<byte>, r: FsdRest, rootLbn: U32)
    requires FsdFits(r) && StartsWith(s, EncodeFsd(r, rootLbn))
    ensures StartsWith(s, EncodeTag(TAG_FSD, r.tag))
  {
    var tag, rest := EncodeTag(TAG_FSD, r.tag), r.numbers + r.ids + Put32(r.extent);
    PrefixIn(s, tag + r.time + rest, Put32(rootLbn));
    PrefixIn(s, tag + r.time, rest);
    PrefixIn(s, tag, r.time);
  }

  /** A sequence of a Partition Descriptor, a Logical Volume Descriptor and a terminator. */
  lemma ThreeSectors(image: seq<byte>, loc: U32, pd: seq<byte>, lvd: seq<byte>, term: seq<byte>)
    requires ReadBlock(image, BS, loc) == Ok(pd) && ReadBlock(image, BS, loc + 1) == Ok(lvd) &&
      ReadBlock(image, BS, loc + 2) == Ok(term)
    requires !Stops(pd) && !Stops(lvd) && Stops(term)
    ensures Bootstrap.ReaderWalk(image, BS, loc, 0, 3) == Ok([loc, loc + 1, loc + 2])
    ensures Interpreted(image, BS, loc, 0, 3) == Ok([pd, lvd])
  {
    assert [loc as nat + 1] + [loc as nat + 2] == [loc as nat + 1, loc as nat + 2];
    assert [loc as nat] + [loc as nat + 1, loc as nat + 2] == [loc as nat, loc as nat + 1, loc as nat + 2];
    assert Bootstrap.ReaderWalk(image, BS, loc, 2, 3) == Ok([loc + 2]);
    assert Bootstrap.ReaderWalk(image, BS, loc, 1, 3) == Ok([loc + 1, loc + 2]);
    assert [pd] + [lvd] == [pd, lvd] && [lvd] + [] == [lvd];
    assert Interpreted(image, BS, loc, 2, 3) == Ok([]);
    assert Interpreted(image, BS, loc, 1, 3) == Ok([lvd]);
  }

  lemma AnchorPasses(image: seq<byte>, v: Plan)
    requires PlanFits(v) && Carries(image, v) && v.anchor == TagWith(SumOf(TAG_AVDP, 256), 256)
    ensures Bootstrap.Passes(image, v.bs, ANCHOR)
  {
    var s := ReadBlock(image, v.bs, ANCHOR).value;
    AnchorTag(s, v.anchor, v.len, v.loc);
    TagPasses(s, TAG_AVDP, SumOf(TAG_AVDP, 256), 256);
  }

  lemma PdPasses(image: seq<byte>, v: Plan)
    requires IsLaidOut(v) && Carries(image, v) && v.pd.tag == TagWith(SumOf(TAG_PD, 0), 0)
    ensures Bootstrap.Passes(image, v.bs, v.loc)
  {
    var s := ReadBlock(image, v.bs, v.loc).value;
    PdTag(s, v.pd, v.number, v.start);
    TagPasses(s, TAG_PD, SumOf(TAG_PD, 0), 0);
  }

  lemma LvdPasses(image: seq<byte>, v: Plan, sum: byte)
    requires IsLaidOut(v) && Carries(image, v) && v.lvd.tag == TagWith(sum, 0)
    ensures Bootstrap.Passes(image, v.bs, v.loc + 1) <==> sum == SumOf(TAG_LVD, 0)
  {
    var s := ReadBlock(image, v.bs, v.loc + 1).value;
    LvdTag(s, v.lvd, v.fsdLbn, v.partRef, v.maps);
    TagPasses(s, TAG_LVD, sum, 0);
  }

  lemma FsdPasses(image: seq<byte>, v: Plan)
    requires PlanFits(v) && Carries(image, v) && v.fsd.tag == TagWith(SumOf(TAG_FSD, 0), 0)
    ensures Bootstrap.Passes(image, v.bs, v.start + v.fsdLbn)
  {
    var s := ReadBlock(image, v.bs, v.start + v.fsdLbn).value;
    FsdTag(s, v.fsd, v.rootLbn);
    TagPasses(s, TAG_FSD, SumOf(TAG_FSD, 0), 0);
  }

  lemma SequenceOf(image: seq<byte>, v: Plan)
    requires IsLaidOut(v) && Carries(image, v)
    ensures Bootstrap.ReaderWalk(image, BS, v.loc, 0, 3) == Ok([v.loc, v.loc + 1, v.loc + 2])
    ensures TagIdent(ReadBlock(image, BS, v.loc + 1).value) == TAG_LVD
    ensures Interpreted(image, BS, v.loc, 0, 3) ==
      Ok([ReadBlock(image, BS, v.loc).value, ReadBlock(image, BS, v.loc + 1).value])
  {
    var pd, lvd, term := ReadBlock(image, BS, v.loc).value, ReadBlock(image, BS, v.loc + 1).value,
      ReadBlock(image, BS, v.loc + 2).value;
    AbsorbPd(NOTHING, pd, v.pd, v.number, v.start);
    LvdContents(lvd, v.lvd, v.fsdLbn, v.partRef, v.maps);
    assert IsEnd(image, BS, v.loc + 2);
    ThreeSectors(image, v.loc, pd, lvd, term);
  }

  /** Nothing is reported, although a descriptor that determined the state is bad. */
  ghost predicate CleanButUnsound(image: seq<byte>, st: UdfState) {
    && st.blockSize >= 16 && Bootstrap.AuditedLbas(image, st).Ok?
    && Bootstrap.NoTagAnomaly(
         Lists.FlatMap<U32, Anomaly>(TagAudit(image, st.blockSize), Bootstrap.AuditedLbas(image, st).value))
    && !Bootstrap.SequenceInRange(image, st) && !Bootstrap.StateIsSound(image, st)
  }

  /** A sequence at `loc` whose descriptors pass the audit but for the second, a Logical Volume Descriptor. */
  predicate IsBadBehind(image: seq<byte>, loc: U32) {
    && Bootstrap.Passes(image, BS, ANCHOR) && Bootstrap.Passes(image, BS, 300) && Bootstrap.Passes(image, BS, loc)
    && Bootstrap.ReaderWalk(image, BS, loc, 0, 3) == Ok([loc, loc + 1, loc + 2])
    && ReadBlock(image, BS, loc).Ok? && ReadBlock(image, BS, loc + 1).Ok?
    && var pd, lvd := ReadBlock(image, BS, loc).value, ReadBlock(image, BS, loc + 1).value;
       TagIdent(lvd) == TAG_LVD && !Bootstrap.Passes(image, BS, loc + 1) &&
         Interpreted(image, BS, loc, 0, 3) == Ok([pd, lvd])
  }

  lemma UnauditedBehindTheEdge(image: seq<byte>, st: UdfState)
    requires StateOf(image) == Ok(Some(st)) && st == StateAt(U32_MAX) && IsBadBehind(image, U32_MAX)
    ensures CleanButUnsound(image, st)
  {
    Bootstrap.CleanAuditExactly(image, st);
    var pd, lvd := ReadBlock(image, BS, U32_MAX).value, ReadBlock(image, BS, U32_MAX + 1).value;
    assert [pd, lvd][1] == lvd && Bootstrap.Determining(lvd);
  }

  /** What the blocks of the volume are to the audit: all sound, but for the Logical Volume Descriptor's checksum. */
  lemma PlanPasses(image: seq<byte>, v: Plan, lvdSum: byte)
    requires IsLaidOut(v) && Carries(image, v) && IsPlain(v, lvdSum)
    ensures Bootstrap.Passes(image, BS, ANCHOR) && Bootstrap.Passes(image, BS, 300) &&
      Bootstrap.Passes(image, BS, v.loc)
    ensures Bootstrap.Passes(image, BS, v.loc + 1) <==> lvdSum == SumOf(TAG_LVD, 0)
  {
    AnchorPasses(image, v);
    PdPasses(image, v);
    LvdPasses(image, v, lvdSum);
    FsdPasses(image, v);
  }

  lemma PlanIsBadBehind(image: seq<byte>, v: Plan, sum: byte)
    requires IsLaidOut(v) && Carries(image, v) && IsPlain(v, sum) && sum != SumOf(TAG_LVD, 0)
    ensures IsBadBehind(image, v.loc)
  {
    PlanPasses(image, v, sum);
    SequenceOf(image, v);
  }

  lemma EdgeOfPlan(image: seq<byte>, v: Plan, sum: byte)
    requires IsLaidOut(v) && Carries(image, v) && IsPlain(v, sum) && sum != SumOf(TAG_LVD, 0)
    requires v.loc == U32_MAX && StateOf(image) == Ok(Some(StateAt(U32_MAX)))
    ensures CleanButUnsound(image, StateAt(U32_MAX))
  {
    PlanIsBadBehind(image, v, sum);
    UnauditedBehindTheEdge(image, StateAt(U32_MAX));
  }

  /**
   * An image that mounts, whose bootstrap audit has no tag findings although
   * the Logical Volume Descriptor that determined the state is bad: its
   * address does not fit `u32`, so the block before it is audited in its place.
   */
  lemma EdgeGoesUnaudited()
    ensures StateOf(EdgeMedium()) == Ok(Some(StateAt(U32_MAX))) && CleanButUnsound(EdgeMedium(), StateAt(U32_MAX))
  {
    var v := PlanAt(U32_MAX, WrongSum(TAG_LVD, 0));
    Mounts(v, map[]);
    MediumCarries(v, map[]);
    EdgeOfPlan(EdgeMedium(), v, WrongSum(TAG_LVD, 0));
  }

  // ----- a root directory in the extra blocks -----

  /** A directory's File Entry: everything the readers ignore is zero. */
  function RootFiller(areaLength: nat): (f: Representation.Filler)
    requires areaLength <= 512
    ensures Representation.FillerFits(f, TAG_FE) && f.fileType == Vfs.FILE_TYPE_DIRECTORY
  {
    Representation.Filler(Fill(14), Fill(11), Vfs.FILE_TYPE_DIRECTORY, Fill(6), Fill(20), Fill(20), Fill(12),
      Fill(72), [],
      Fill(BS - 176 - areaLength))
  }

  function RootEntry(flags: U16, infoLen: U64, area: seq<byte>): (s: seq<byte>)
    requires |area| <= 512
    ensures |s| == BS
  {
    Representation.EncodeEntry(RootFiller(|area|), TAG_FE, flags, infoLen, area)
  }

  function RootPlan(): (v: Plan)
    ensures IsLaidOut(v) && v.loc == 260
  {
    PlanAt(260, SumOf(TAG_LVD, 0))
  }

  /** The place of a volume whose root directory is this block, with another two blocks on. */
  function RootPlace(root: seq<byte>, next: seq<byte>): (p: Place)
    requires |root| == BS && |next| == BS
    ensures ValidPlace(p) && p.bs == BS && p.start == 300
  {
    Analyze.PlaceOf(Medium(RootPlan(), map[301 := root, 303 := next]), StateAt(260))
  }

  lemma RootPlaced(root: seq<byte>, next: seq<byte>)
    requires |root| == BS && |next| == BS
    ensures var p := RootPlace(root, next);
      && StateOf(p.image) == Ok(Some(StateAt(260)))
      && ReadBlock(p.image, BS, 301) == Ok(root) && ReadBlock(p.image, BS, 303) == Ok(next)
      && ReadBlock(p.image, BS, 304) == Ok(Fill(BS))
  {
    var extra := map[301 := root, 303 := next];
    assert AreSectors(extra);
    Mounts(RootPlan(), extra);
    ExtraBlock(RootPlan(), extra, 301);
    ExtraBlock(RootPlan(), extra, 303);
    ExtraBlock(RootPlan(), extra, 304);
  }

  /** What the readers take from such a File Entry. */
  lemma RootDecoded(p: Place, flags: U16, infoLen: U64, area: seq<byte>)
    requires |area| <= 512 && p.bs == BS && ReadBlock(p.image, BS, 301) == Ok(RootEntry(flags, infoLen, area))
    ensures EntryAt(p, 301) == Some(Entry(flags % 8, infoLen, area))
    ensures InfoLenAt(p, 301) == Some(infoLen)
  {
    Representation.DecodeEntry(RootFiller(|area|), TAG_FE, flags, infoLen, area);
    Representation.EntryHead(RootFiller(|area|), TAG_FE, flags, infoLen, area);
  }

  // ----- a preallocated tail -----

  /** 100 bytes of data in two allocated blocks. */
  function Preallocated(): (es: seq<Extent>)
    ensures |es| == 1 && es[0] == Extent(2 * BS, 3)
  {
    [Extent(2 * BS, 3)]
  }

  function PreallocatedArea(): (area: seq<byte>)
    ensures |area| == 8
  {
    Representation.EncodeArea(Preallocated(), 8, [[]])
  }

  lemma PreallocatedDecodes()
    ensures Descriptors(PreallocatedArea(), 8) == Preallocated()
  {
    Representation.DecodeArea(Preallocated(), 8, [[]], []);
    assert PreallocatedArea() + [] == PreallocatedArea();
  }

  function Twos(): (s: seq<byte>)
    ensures |s| == BS && forall i :: 0 <= i < BS ==> s[i] == 2
  {
    seq(BS, _ => 2)
  }

  lemma {:induction false} NonzeroAll(s: seq<byte>)
    requires forall i :: 0 <= i < |s| ==> s[i] != 0
    ensures Slack.Nonzero(s) == |s|
  {
    if s != [] {
      NonzeroAll(s[..|s| - 1]);
    }
  }

  lemma {:induction false} NonzeroNone(s: seq<byte>)
    requires forall i :: 0 <= i < |s| ==> s[i] == 0
    ensures Slack.Nonzero(s) == 0
  {
    if s != [] {
      NonzeroNone(s[..|s| - 1]);
    }
  }

  lemma ShortEntry(p: Place, infoLen: U64, area: seq<byte>, es: seq<Extent>)
    requires ValidPlace(p) && EntryAt(p, 301) == Some(Entry(ALLOC_SHORT, infoLen, area)) && Descriptors(area, 8) == es
    ensures Slack.LastBlockPos(p, 301) == Slack.LastIn(p, es) && FeData(p, 301) == DataOf(p, es, infoLen)
  {
  }

  /** A File Entry whose area holds `es` in short descriptors. */
  lemma RecordedRoot(p: Place, infoLen: U64, area: seq<byte>, es: seq<Extent>)
    requires ValidPlace(p) && p.bs == BS && |area| <= 512 && Descriptors(area, 8) == es
    requires ReadBlock(p.image, BS, 301) == Ok(RootEntry(ALLOC_SHORT, infoLen, area))
    ensures InfoLenAt(p, 301) == Some(infoLen)
    ensures Slack.LastBlockPos(p, 301) == Slack.LastIn(p, es)
    ensures FeData(p, 301) == DataOf(p, es, infoLen)
  {
    RootDecoded(p, ALLOC_SHORT, infoLen, area);
    ShortEntry(p, infoLen, area, es);
  }

  lemma PreallocatedExtent(p: Place)
    requires ValidPlace(p) && p.bs == BS && p.start == 300
    ensures Slack.LastIn(p, Preallocated()) == Some(304 * BS)
    ensures !Slack.FoundInPlace(p, Preallocated(), 100)
  {
    var es := Preallocated();
    assert es[..0] == [];
    assert Recorded(es[0]) && Length(es[0]) == 2 * BS;
    assert AllPositions(p, es) == Positions(p, es[0]);
  }

  lemma TailOfBlock(image: seq<byte>, lba: nat, block: seq<byte>, k: nat)
    requires ReadBlock(image, BS, lba) == Ok(block) && k <= BS
    ensures image[lba * BS + k..lba * BS + BS] == block[k..]
  {
  }

  /** The last block is zero from byte 100 on, the one before has no zero there. */
  lemma MissedTail(p: Place)
    requires ValidPlace(p) && p.bs == BS
    requires ReadBlock(p.image, BS, 303) == Ok(Twos()) && ReadBlock(p.image, BS, 304) == Ok(Fill(BS))
    ensures Slack.TailOf(p, 304 * BS, 100) == Some(Slack.SlackCount(0, BS - 100))
    ensures Slack.Nonzero(p.image[303 * BS + 100..304 * BS]) == BS - 100
  {
    NonzeroNone(Fill(BS)[100..]);
    TailOfBlock(p.image, 303, Twos(), 100);
    NonzeroAll(Twos()[100..]);
  }

  lemma CountedTail(p: Place, infoLen: U64, pos: nat)
    requires ValidPlace(p) && InfoLenAt(p, 301) == Some(infoLen) && Slack.LastBlockPos(p, 301) == Some(pos)
    requires infoLen > 0 && Slack.SlackBytes(infoLen, p.bs) != 0
    ensures Slack.SlackOf(p, 301) == Slack.TailOf(p, pos, infoLen)
  {
  }

  lemma TailLength()
    ensures Slack.SlackBytes(100, BS) == BS - 100
  {
  }

  lemma CountedInLast(p: Place)
    requires ValidPlace(p) && p.bs == BS && InfoLenAt(p, 301) == Some(100) &&
      Slack.LastBlockPos(p, 301) == Some(304 * BS)
    ensures Slack.SlackOf(p, 301) == Slack.TailOf(p, 304 * BS, 100)
  {
    TailLength();
    CountedTail(p, 100, 304 * BS);
  }

  lemma FetchRange(image: seq<byte>, from: nat, n: nat)
    requires from + n <= |image|
    ensures Fetch(image, Range(from, n)) == image[from..from + n]
  {
  }

  /** The data of a single readable extent. */
  lemma OneExtentData(p: Place, e: Extent, n: nat)
    requires ValidPlace(p) && Recorded(e) && Readable(p, e) && n <= Length(e)
    ensures BytePos(p, e) + n <= |p.image|
    ensures DataOf(p, [e], n) == Some(p.image[BytePos(p, e)..BytePos(p, e) + n])
  {
    CeilBounds(Length(e), p.bs);
    assert [e][..0] == [] && AllPositions(p, [e]) == Positions(p, e);
    assert Take(AllPositions(p, [e]), n) == Range(BytePos(p, e), n);
    assert NeededReadable(p, [e], n);
    FetchRange(p.image, BytePos(p, e), n);
  }

  lemma MissedData(p: Place)
    requires ValidPlace(p) && p.bs == BS && p.start == 300 && ReadBlock(p.image, BS, 304).Ok?
    ensures DataOf(p, Preallocated(), 100) == Some(p.image[303 * BS..303 * BS + 100])
  {
    assert Preallocated() == [Extent(2 * BS, 3)];
    OneExtentData(p, Extent(2 * BS, 3), 100);
  }

  function PreallocatedPlace(): (p: Place)
    ensures ValidPlace(p) && p.bs == BS && p.start == 300
  {
    RootPlace(RootEntry(ALLOC_SHORT, 100, PreallocatedArea()), Twos())
  }

  /**
   * A mounted volume whose root directory has 100 bytes of data in block 303
   * and a second block allocated for more. The slack behind the data is full of
   * nonzero bytes; the count is taken from block 304 and nothing is reported.
   */
  lemma PreallocatedTailMissed()
    ensures var p := PreallocatedPlace();
      && StateOf(p.image) == Ok(Some(StateAt(260)))
      && FeData(p, 301) == Some(p.image[303 * BS..303 * BS + 100])
      && Slack.Nonzero(p.image[303 * BS + 100..304 * BS]) == BS - 100
      && Slack.SlackOf(p, 301) == Some(Slack.SlackCount(0, BS - 100))
      && Walk.SlackFindings(p, 301) == []
  {
    var p, es := PreallocatedPlace(), Preallocated();
    RootPlaced(RootEntry(ALLOC_SHORT, 100, PreallocatedArea()), Twos());
    PreallocatedDecodes();
    RecordedRoot(p, 100, PreallocatedArea(), es);
    PreallocatedExtent(p);
    CountedInLast(p);
    MissedTail(p);
    MissedData(p);
  }

  // ----- a root directory that lists itself -----

  function SelfRecord(): (r: FidStream.Record)
    ensures FidStream.Encodable(r, 16) && r.fid == Fids.Fid(2, 1, []) && |FidStream.Encode(r, 16)| == 36
  {
    FidStream.Record(Fids.Fid(2, 1, []), Fill(8), Fill(4), [], BS, 0, Fill(6), [])
  }

  function SelfPlace(): (p: Place)
    ensures ValidPlace(p) && p.bs == BS && p.start == 300
  {
    RootPlace(RootEntry(ALLOC_INLINE, 36, FidStream.Encode(SelfRecord(), 16)), Fill(BS))
  }

  lemma InlineEntry(p: Place, infoLen: U64, area: seq<byte>)
    requires ValidPlace(p) && EntryAt(p, 301) == Some(Entry(ALLOC_INLINE, infoLen, area)) && infoLen == |area|
    ensures FeData(p, 301) == Some(area)
  {
  }

  lemma SelfChild(p: Place)
    requires ValidPlace(p) && p.start == 300 && InfoLenAt(p, 301) == Some(36)
    ensures Fids.Children(p, FidStream.Encode(SelfRecord(), 16)) == [Fids.DirEntry([], true, 36, 301)]
  {
    FidStream.AddressReadTooLate(p, SelfRecord());
  }

  lemma SelfListed(p: Place)
    requires ValidPlace(p) && p.bs == BS && p.start == 300
    requires ReadBlock(p.image, BS, 301) == Ok(RootEntry(ALLOC_INLINE, 36, FidStream.Encode(SelfRecord(), 16)))
    ensures Vfs.Scratch(p, 301) == Some(Vfs.FeMeta(true, Vfs.Dir, 36))
    ensures Walk.ReadDirAt(p, 301) == Some([Fids.DirEntry([], true, 36, 301)])
  {
    var area := FidStream.Encode(SelfRecord(), 16);
    NodeFields(p, 301, RootFiller(|area|), TAG_FE, ALLOC_INLINE, 36, area);
    RootDecoded(p, ALLOC_INLINE, 36, area);
    InlineEntry(p, 36, area);
    SelfChild(p);
  }

  lemma SelfGrows(p: Place)
    requires ValidPlace(p) && Vfs.Scratch(p, 301) == Some(Vfs.FeMeta(true, Vfs.Dir, 36))
    requires Walk.ReadDirAt(p, 301) == Some([Fids.DirEntry([], true, 36, 301)])
    ensures Vfs.Resolved(p, Vfs.Run(p, Vfs.Seed(301), []), 301) == Some(Vfs.FeMeta(true, Vfs.Dir, 0))
    ensures Vfs.Resolved(p, Vfs.Run(p, Vfs.Seed(301), [Vfs.List(301)]), 301) == Some(Vfs.FeMeta(true, Vfs.Dir, 36))
  {
    var ops := [Vfs.List(301)];
    assert ops[..0] == [];
    assert Vfs.Listing(p, Vfs.Seed(301), 301).value[0].feLba == 301;
    assert Vfs.Names(p, Vfs.Run(p, Vfs.Seed(301), []), ops[0], 301);
    Vfs.RootRecord(p, 301, ops);
  }

  /**
   * A mounted volume whose root directory, 36 bytes long, names itself: its
   * size is 0 until it is listed, and 36 from then on.
   */
  lemma RootGrowsWhenListed()
    ensures var p := SelfPlace();
      && StateOf(p.image) == Ok(Some(StateAt(260)))
      && Vfs.Resolved(p, Vfs.Run(p, Vfs.Seed(301), []), 301) == Some(Vfs.FeMeta(true, Vfs.Dir, 0))
      && Vfs.Resolved(p, Vfs.Run(p, Vfs.Seed(301), [Vfs.List(301)]), 301) == Some(Vfs.FeMeta(true, Vfs.Dir, 36))
  {
    RootPlaced(RootEntry(ALLOC_INLINE, 36, FidStream.Encode(SelfRecord(), 16)), Fill(BS));
    SelfListed(SelfPlace());
    SelfGrows(SelfPlace());
  }
}
