/** Encoders of the bootstrap descriptors and of a node's fields, and what the readers make of them. */
module Mastering {
  import opened Bytes
  import opened Tags
  import opened PartitionMaps
  import opened Volume
  import opened FileEntry
  import Timestamps
  import Representation
  import Walk
  import Analyze
  import Vfs

  /** A sector that starts with these fields. */
  predicate StartsWith(s: seq<byte>, fields: seq<byte>) {
    |fields| <= |s| && s[0..|fields|] == fields
  }

  lemma FieldIn(s: seq<byte>, before: seq<byte>, field: seq<byte>, after: seq<byte>)
    requires StartsWith(s, before + field + after)
    ensures |field| >= 2 ==> Le16(s, |before|) == Le16(field, 0)
    ensures |field| >= 4 ==> Le32(s, |before|) == Le32(field, 0)
  {
    var all := before + field + after;
    assert s[|before|..|before| + |field|] == all[|before|..|before| + |field|] == field == field[0..|field|];
    SameFields(s, |before|, field, 0, |field|, 0);
  }

  // ----- the anchor (ECMA-167 part 3, section 10.2) -----

  datatype TagRest = TagRest(middle: seq<byte>, location: U32)

  /** Identifier, ten bytes of version, checksum, serial number, CRC and CRC length, then the location. */
  function EncodeTag(tag: U16, t: TagRest): (s: seq<byte>)
    requires |t.middle| == 10
    ensures |s| == 16
  {
    Put16(tag) + t.middle + Put32(t.location)
  }

  function EncodeAnchor(t: TagRest, len: U32, loc: U32): (s: seq<byte>)
    requires |t.middle| == 10
    ensures |s| == 24
  {
    EncodeTag(TAG_AVDP, t) + (Put32(len) + Put32(loc))
  }

  lemma AnchorFields(s: seq<byte>, t: TagRest, len: U32, loc: U32)
    requires |t.middle| == 10 && StartsWith(s, EncodeAnchor(t, len, loc))
    ensures TagIdent(s) == TAG_AVDP && Le32(s, 12) == t.location && Le32(s, 16) == len && Le32(s, 20) == loc
  {
    var tag := EncodeTag(TAG_AVDP, t);
    assert EncodeAnchor(t, len, loc) == [] + Put16(TAG_AVDP) +
      (t.middle + Put32(t.location) + (Put32(len) + Put32(loc)));
    FieldIn(s, [], Put16(TAG_AVDP), t.middle + Put32(t.location) + (Put32(len) + Put32(loc)));
    assert EncodeAnchor(t, len, loc) == (Put16(TAG_AVDP) + t.middle) + Put32(t.location) + (Put32(len) + Put32(loc));
    FieldIn(s, Put16(TAG_AVDP) + t.middle, Put32(t.location), Put32(len) + Put32(loc));
    assert EncodeAnchor(t, len, loc) == tag + Put32(len) + Put32(loc);
    FieldIn(s, tag, Put32(len), Put32(loc));
    assert EncodeAnchor(t, len, loc) == (tag + Put32(len)) + Put32(loc) + [];
    FieldIn(s, tag + Put32(len), Put32(loc), []);
  }

  // ----- Partition Descriptor (part 3, section 10.5) -----

  /** Sequence number and flags; contents, contents use and access type. */
  datatype PdRest = PdRest(tag: TagRest, head: seq<byte>, contents: seq<byte>)

  predicate PdFits(r: PdRest) {
    |r.tag.middle| == 10 && |r.head| == 4 + 2 && |r.contents| == 32 + 128 + 4
  }

  function EncodePd(r: PdRest, number: U16, start: U32): (s: seq<byte>)
    requires PdFits(r)
    ensures |s| == 192
  {
    EncodeTag(TAG_PD, r.tag) + r.head + Put16(number) + r.contents + Put32(start)
  }

  lemma TagOf(s: seq<byte>, tag: U16, t: TagRest, rest: seq<byte>)
    requires |t.middle| == 10 && StartsWith(s, EncodeTag(tag, t) + rest)
    ensures TagIdent(s) == tag
  {
    assert EncodeTag(tag, t) + rest == [] + Put16(tag) + (t.middle + Put32(t.location) + rest);
    FieldIn(s, [], Put16(tag), t.middle + Put32(t.location) + rest);
  }

  lemma PdFields(s: seq<byte>, r: PdRest, number: U16, start: U32)
    requires PdFits(r) && StartsWith(s, EncodePd(r, number, start))
    ensures TagIdent(s) == TAG_PD && Le16(s, 22) == number && Le32(s, 188) == start
  {
    var tag := EncodeTag(TAG_PD, r.tag);
    assert EncodePd(r, number, start) == tag + (r.head + Put16(number) + r.contents + Put32(start));
    TagOf(s, TAG_PD, r.tag, r.head + Put16(number) + r.contents + Put32(start));
    assert EncodePd(r, number, start) == (tag + r.head) + Put16(number) + (r.contents + Put32(start));
    FieldIn(s, tag + r.head, Put16(number), r.contents + Put32(start));
    assert EncodePd(r, number, start) == (tag + r.head + Put16(number) + r.contents) + Put32(start) + [];
    FieldIn(s, tag + r.head + Put16(number) + r.contents, Put32(start), []);
  }

  /** The scan takes an encoded Partition Descriptor for what it encodes. */
  lemma AbsorbPd(scan: Scan, s: seq<byte>, r: PdRest, number: U16, start: U32)
    requires PdFits(r) && StartsWith(s, EncodePd(r, number, start))
    ensures !Stops(s) && Absorb(scan, s) == scan.(pdStart := scan.pdStart[number := start])
  {
    PdFields(s, r, number, start);
  }

  // ----- Logical Volume Descriptor (part 3, section 10.6) -----

  /** Up to the domain identifier; the contents use around block and partition; identifiers up to the maps. */
  datatype LvdRest = LvdRest(tag: TagRest, head: seq<byte>, extent: U32, use: seq<byte>, ids: seq<byte>)

  predicate LvdFits(r: LvdRest) {
    && |r.tag.middle| == 10 && |r.head| == 4 + 64 + 128 + 4 + 32 && |r.use| == 6
    && |r.ids| == 32 + 128 + 8
  }

  function MapTable(maps: seq<MapRecord>): seq<byte>
    requires forall m :: m in maps ==> PartitionMaps.Encodable(m)
  {
    PartitionMaps.Flatten(PartitionMaps.EncodeAll(maps))
  }

  function LvdHead(r: LvdRest): (s: seq<byte>)
    requires LvdFits(r)
    ensures |s| == 252
  {
    EncodeTag(TAG_LVD, r.tag) + r.head + Put32(r.extent)
  }

  predicate LvdEncodable(r: LvdRest, maps: seq<MapRecord>) {
    LvdFits(r) && (forall m :: m in maps ==> PartitionMaps.Encodable(m)) && |MapTable(maps)| <= U32_MAX &&
      |maps| <= U32_MAX
  }

  function EncodeLvd(r: LvdRest, fsdLbn: U32, partRef: U16, maps: seq<MapRecord>): (s: seq<byte>)
    requires LvdEncodable(r, maps)
    ensures |s| == TABLE + |MapTable(maps)|
  {
    LvdHead(r) + (Put32(fsdLbn) + Put16(partRef) + r.use) + (Put32(|MapTable(maps)|) + Put32(|maps|)) + r.ids +
      MapTable(maps)
  }

  lemma PrefixIn(s: seq<byte>, before: seq<byte>, after: seq<byte>)
    requires StartsWith(s, before + after)
    ensures StartsWith(s, before)
  {
    assert s[0..|before|] == (before + after)[0..|before|];
  }

  lemma LvdStart(s: seq<byte>, r: LvdRest)
    requires LvdFits(r) && StartsWith(s, LvdHead(r))
    ensures TagIdent(s) == TAG_LVD
  {
    PrefixIn(s, EncodeTag(TAG_LVD, r.tag) + r.head, Put32(r.extent));
    TagOf(s, TAG_LVD, r.tag, r.head);
  }

  lemma LvdUse(s: seq<byte>, head: seq<byte>, fsdLbn: U32, partRef: U16, use: seq<byte>)
    requires |head| == 252 && StartsWith(s, head + (Put32(fsdLbn) + Put16(partRef) + use))
    ensures Le32(s, 252) == fsdLbn && Le16(s, 256) == partRef
  {
    var all := head + (Put32(fsdLbn) + Put16(partRef) + use);
    assert all == head + Put32(fsdLbn) + (Put16(partRef) + use);
    FieldIn(s, head, Put32(fsdLbn), Put16(partRef) + use);
    assert all == (head + Put32(fsdLbn)) + Put16(partRef) + use;
    FieldIn(s, head + Put32(fsdLbn), Put16(partRef), use);
  }

  /** An encoded descriptor starts with its head, and with what stands behind it. */
  lemma LvdBegins(s: seq<byte>, r: LvdRest, fsdLbn: U32, partRef: U16, maps: seq<MapRecord>)
    requires LvdEncodable(r, maps) && StartsWith(s, EncodeLvd(r, fsdLbn, partRef, maps))
    ensures StartsWith(s, LvdHead(r) + (Put32(fsdLbn) + Put16(partRef) + r.use)) && StartsWith(s, LvdHead(r))
  {
    var head, middle := LvdHead(r), Put32(fsdLbn) + Put16(partRef) + r.use;
    var counts := Put32(|MapTable(maps)|) + Put32(|maps|);
    PrefixIn(s, head + middle + counts + r.ids, MapTable(maps));
    PrefixIn(s, head + middle + counts, r.ids);
    PrefixIn(s, head + middle, counts);
    PrefixIn(s, head, middle);
  }

  lemma LvdContents(s: seq<byte>, r: LvdRest, fsdLbn: U32, partRef: U16, maps: seq<MapRecord>)
    requires LvdEncodable(r, maps) && StartsWith(s, EncodeLvd(r, fsdLbn, partRef, maps))
    ensures TagIdent(s) == TAG_LVD && Le32(s, 252) == fsdLbn && Le16(s, 256) == partRef
  {
    LvdBegins(s, r, fsdLbn, partRef, maps);
    LvdUse(s, LvdHead(r), fsdLbn, partRef, r.use);
    LvdStart(s, r);
  }

  lemma TwoWords(s: seq<byte>, before: seq<byte>, a: U32, b: U32)
    requires StartsWith(s, before + (Put32(a) + Put32(b)))
    ensures Le32(s, |before|) == a && Le32(s, |before| + 4) == b
  {
    assert before + (Put32(a) + Put32(b)) == before + Put32(a) + Put32(b);
    FieldIn(s, before, Put32(a), Put32(b));
    assert before + (Put32(a) + Put32(b)) == (before + Put32(a)) + Put32(b) + [];
    FieldIn(s, before + Put32(a), Put32(b), []);
  }

  lemma LvdMaps(s: seq<byte>, r: LvdRest, fsdLbn: U32, partRef: U16, maps: seq<MapRecord>)
    requires LvdEncodable(r, maps) && StartsWith(s, EncodeLvd(r, fsdLbn, partRef, maps))
    ensures Le32(s, 264) == |MapTable(maps)| && Le32(s, 268) == |maps|
    ensures TABLE + |MapTable(maps)| <= |s| && s[TABLE..TABLE + |MapTable(maps)|] == MapTable(maps)
  {
    var before, table := LvdHead(r) + (Put32(fsdLbn) + Put16(partRef) + r.use), MapTable(maps);
    var all := EncodeLvd(r, fsdLbn, partRef, maps);
    PrefixIn(s, before + (Put32(|table|) + Put32(|maps|)) + r.ids, table);
    PrefixIn(s, before + (Put32(|table|) + Put32(|maps|)), r.ids);
    TwoWords(s, before, |table|, |maps|);
    assert s[TABLE..TABLE + |table|] == all[TABLE..TABLE + |table|] == table;
  }

  lemma LvdFields(s: seq<byte>, r: LvdRest, fsdLbn: U32, partRef: U16, maps: seq<MapRecord>)
    requires LvdEncodable(r, maps)
    requires StartsWith(s, EncodeLvd(r, fsdLbn, partRef, maps))
    ensures TagIdent(s) == TAG_LVD && VolumeIn(s) == LogicalVolume(fsdLbn, partRef, MapsIn(maps))
  {
    LvdContents(s, r, fsdLbn, partRef, maps);
    LvdMaps(s, r, fsdLbn, partRef, maps);
    PartitionMaps.ParseEncoded(s, maps);
  }

  /** The scan takes an encoded Logical Volume Descriptor for what it encodes. */
  lemma AbsorbLvd(scan: Scan, s: seq<byte>, r: LvdRest, fsdLbn: U32, partRef: U16, maps: seq<MapRecord>)
    requires LvdEncodable(r, maps)
    requires StartsWith(s, EncodeLvd(r, fsdLbn, partRef, maps))
    ensures !Stops(s) && Absorb(scan, s) == scan.(volume := Some(LogicalVolume(fsdLbn, partRef, MapsIn(maps))))
  {
    LvdFields(s, r, fsdLbn, partRef, maps);
  }

  // ----- File Set Descriptor (part 4, section 14.1) -----

  /** Recording time; levels, lists and numbers; character sets and identifiers up to the root's extent length. */
  datatype FsdRest = FsdRest(tag: TagRest, time: seq<byte>, numbers: seq<byte>, ids: seq<byte>, extent: U32)

  predicate FsdFits(r: FsdRest) {
    |r.tag.middle| == 10 && |r.time| == 12 && |r.numbers| == 20 && |r.ids| == 64 + 128 + 64 + 32 + 32 + 32
  }

  function EncodeFsd(r: FsdRest, rootLbn: U32): (s: seq<byte>)
    requires FsdFits(r)
    ensures |s| == 408
  {
    EncodeTag(TAG_FSD, r.tag) + r.time + (r.numbers + r.ids + Put32(r.extent)) + Put32(rootLbn)
  }

  lemma FsdFields(s: seq<byte>, r: FsdRest, rootLbn: U32)
    requires FsdFits(r) && StartsWith(s, EncodeFsd(r, rootLbn))
    ensures TagIdent(s) == TAG_FSD && Le32(s, 404) == rootLbn && s[16..28] == r.time
  {
    var tag, rest := EncodeTag(TAG_FSD, r.tag), r.numbers + r.ids + Put32(r.extent);
    var all := EncodeFsd(r, rootLbn);
    assert all == tag + (r.time + rest + Put32(rootLbn));
    TagOf(s, TAG_FSD, r.tag, r.time + rest + Put32(rootLbn));
    assert all == (tag + r.time + rest) + Put32(rootLbn) + [];
    FieldIn(s, tag + r.time + rest, Put32(rootLbn), []);
    assert s[16..28] == all[16..28] == r.time;
  }

  predicate BlockHolds(image: seq<byte>, bs: nat, lba: nat, fields: seq<byte>) {
    ReadBlock(image, bs, lba).Ok? && StartsWith(ReadBlock(image, bs, lba).value, fields)
  }

  /** The volume's time is the recording time of its File Set Descriptor. */
  lemma RecordingTimeOf(image: seq<byte>, bs: nat, lba: nat, r: FsdRest, rootLbn: U32)
    requires IsBlockSize(bs) && FsdFits(r) && BlockHolds(image, bs, lba, EncodeFsd(r, rootLbn))
    ensures Analyze.RecordingTime(image, bs, lba) == Ok(Timestamps.DecodeTimestamp(r.time))
  {
    FsdFields(ReadBlock(image, bs, lba).value, r, rootLbn);
  }

  // ----- a mounted volume -----

  /** The blocks of the Partition Descriptor and of the volume's, and the one behind the sequence's last. */
  datatype Layout = Layout(pd: nat, lvd: nat, end: nat)

  /** A volume with one partition: anchor, a sequence with a Partition and a Logical Volume Descriptor, a File Set. */
  datatype Plan = Plan(
    bs: nat, anchor: TagRest, len: U32, loc: U32, layout: Layout, pd: PdRest, number: U16, start: U32,
    lvd: LvdRest, fsdLbn: U32, partRef: U16, maps: seq<MapRecord>, fsd: FsdRest, rootLbn: U32)

  predicate IsLayout(a: Layout, loc: U32, n: nat) {
    loc <= a.pd < a.lvd < a.end <= loc + n
  }

  predicate PlanFits(v: Plan) {
    && IsBlockSize(v.bs) && |v.anchor.middle| == 10 && v.anchor.location == ANCHOR
    && PdFits(v.pd) && LvdEncodable(v.lvd, v.maps) && FsdFits(v.fsd)
    && IsLayout(v.layout, v.loc, DivCeil(v.len, v.bs))
    && v.start + v.fsdLbn <= U32_MAX && v.start + v.rootLbn <= U32_MAX
  }

  /** A readable block with a tag other than 0, 5, 6 and 8. */
  predicate IsOther(image: seq<byte>, bs: nat, lba: nat) {
    ReadBlock(image, bs, lba).Ok? &&
    var tag := Le16(ReadBlock(image, bs, lba).value, 0);
    tag != 0 && tag != 5 && tag != 6 && tag != 8
  }

  /** Such blocks from `from` up to `to`. */
  predicate OthersIn(image: seq<byte>, bs: nat, from: nat, to: nat) {
    forall lba :: from <= lba < to ==> IsOther(image, bs, lba)
  }

  /** A readable block with tag 0 or 8. */
  predicate IsEnd(image: seq<byte>, bs: nat, lba: nat) {
    ReadBlock(image, bs, lba).Ok? &&
    var tag := Le16(ReadBlock(image, bs, lba).value, 0);
    tag == 0 || tag == 8
  }

  /** Nothing but other descriptors around the two; behind them nothing more is declared, or an end follows. */
  predicate OthersAround(image: seq<byte>, bs: nat, loc: nat, a: Layout, n: nat) {
    && OthersIn(image, bs, loc, a.pd) && OthersIn(image, bs, a.pd + 1, a.lvd) && OthersIn(image, bs, a.lvd + 1, a.end)
    && (a.end == loc + n || IsEnd(image, bs, a.end))
  }

  predicate HoldsPd(image: seq<byte>, v: Plan, lba: nat)
    requires PdFits(v.pd)
  {
    BlockHolds(image, v.bs, lba, EncodePd(v.pd, v.number, v.start))
  }

  predicate HoldsLvd(image: seq<byte>, v: Plan, lba: nat)
    requires LvdEncodable(v.lvd, v.maps)
  {
    BlockHolds(image, v.bs, lba, EncodeLvd(v.lvd, v.fsdLbn, v.partRef, v.maps))
  }

  /** The sequence of a plan, from `loc` on. */
  predicate CarriesSequence(image: seq<byte>, v: Plan)
    requires PlanFits(v)
  {
    && OthersAround(image, v.bs, v.loc, v.layout, DivCeil(v.len, v.bs))
    && HoldsPd(image, v, v.layout.pd) && HoldsLvd(image, v, v.layout.lvd)
  }

  /** The image carries the plan; whether a smaller candidate block size shows an anchor too is a separate matter. */
  predicate Carries(image: seq<byte>, v: Plan)
    requires PlanFits(v)
  {
    && BlockHolds(image, v.bs, ANCHOR, EncodeAnchor(v.anchor, v.len, v.loc))
    && CarriesSequence(image, v)
    && BlockHolds(image, v.bs, v.start + v.fsdLbn, EncodeFsd(v.fsd, v.rootLbn))
  }

  lemma TerminatorStops(s: seq<byte>)
    requires StartsWith(s, Put16(TAG_TERM))
    ensures Stops(s) && Le16(s, 0) == 8
  {
    assert Put16(TAG_TERM) == [] + Put16(TAG_TERM) + [];
    FieldIn(s, [], Put16(TAG_TERM), []);
  }

  /** Other descriptors are passed over. */
  lemma {:induction false} ScanPasses(image: seq<byte>, bs: nat, loc: U32, from: nat, to: nat, n: nat, scan: Scan)
    requires from <= to <= n && OthersIn(image, bs, loc + from, loc + to)
    ensures ScanFrom(image, bs, loc, from, n, scan) == ScanFrom(image, bs, loc, to, n, scan)
    decreases n - from
  {
    if from < to {
      assert IsOther(image, bs, loc + from);
      var s := ReadBlock(image, bs, loc + from).value;
      assert !Stops(s) && Absorb(scan, s) == scan;
      ScanPasses(image, bs, loc, from + 1, to, n, scan);
    }
  }

  lemma ScanEnds(image: seq<byte>, bs: nat, loc: U32, end: nat, n: nat, scan: Scan)
    requires end == n || (end < n && IsEnd(image, bs, loc + end))
    ensures ScanFrom(image, bs, loc, end, n, scan) == Ok(scan)
  {
  }

  function VolumeOf(v: Plan): LogicalVolume {
    LogicalVolume(v.fsdLbn, v.partRef, MapsIn(v.maps))
  }

  function ScanOf(v: Plan): Scan {
    Scan(map[v.number := v.start], Some(VolumeOf(v)))
  }

  /** The block is a Partition Descriptor of this number and start. */
  predicate ShowsPd(image: seq<byte>, bs: nat, lba: nat, number: U16, start: U32) {
    ReadBlock(image, bs, lba).Ok? &&
    var s := ReadBlock(image, bs, lba).value;
    TagIdent(s) == TAG_PD && Le16(s, 22) == number && Le32(s, 188) == start
  }

  /** The block is a Logical Volume Descriptor that says this. */
  predicate ShowsLvd(image: seq<byte>, bs: nat, lba: nat, volume: LogicalVolume) {
    ReadBlock(image, bs, lba).Ok? &&
    TagIdent(ReadBlock(image, bs, lba).value) == TAG_LVD && VolumeIn(ReadBlock(image, bs, lba).value) == volume
  }

  lemma ScanTakesPd(image: seq<byte>, bs: nat, loc: U32, i: nat, n: nat, number: U16, start: U32)
    requires i < n && ShowsPd(image, bs, loc + i, number, start)
    ensures ScanFrom(image, bs, loc, i, n, NOTHING) ==
      ScanFrom(image, bs, loc, i + 1, n, Scan(map[number := start], None))
  {
    assert NOTHING.pdStart[number := start] == map[number := start];
  }

  lemma ScanTakesLvd(image: seq<byte>, bs: nat, loc: U32, i: nat, n: nat, scan: Scan, volume: LogicalVolume)
    requires i < n && ShowsLvd(image, bs, loc + i, volume)
    ensures ScanFrom(image, bs, loc, i, n, scan) ==
      ScanFrom(image, bs, loc, i + 1, n, scan.(volume := Some(volume)))
  {
  }

  lemma PdShown(image: seq<byte>, lba: nat, v: Plan)
    requires PdFits(v.pd)
    ensures HoldsPd(image, v, lba) ==> ShowsPd(image, v.bs, lba, v.number, v.start)
  {
    if HoldsPd(image, v, lba) {
      PdFields(ReadBlock(image, v.bs, lba).value, v.pd, v.number, v.start);
    }
  }

  lemma LvdShown(image: seq<byte>, lba: nat, v: Plan)
    requires LvdEncodable(v.lvd, v.maps)
    ensures HoldsLvd(image, v, lba) ==> ShowsLvd(image, v.bs, lba, VolumeOf(v))
  {
    if HoldsLvd(image, v, lba) {
      LvdFields(ReadBlock(image, v.bs, lba).value, v.lvd, v.fsdLbn, v.partRef, v.maps);
    }
  }

  /** A Partition and a Logical Volume Descriptor in a sequence of others are scanned for what they say. */
  lemma ScanOfTwo(image: seq<byte>, bs: nat, loc: U32, a: Layout, n: nat, number: U16, start: U32,
                  volume: LogicalVolume)
    requires IsLayout(a, loc, n) && OthersAround(image, bs, loc, a, n)
    requires ShowsPd(image, bs, a.pd, number, start) && ShowsLvd(image, bs, a.lvd, volume)
    ensures ScanFrom(image, bs, loc, 0, n, NOTHING) == Ok(Scan(map[number := start], Some(volume)))
  {
    var p, q, end := a.pd - loc, a.lvd - loc, a.end - loc;
    var first, both := Scan(map[number := start], None), Scan(map[number := start], Some(volume));
    ScanPasses(image, bs, loc, 0, p, n, NOTHING);
    ScanTakesPd(image, bs, loc, p, n, number, start);
    ScanPasses(image, bs, loc, p + 1, q, n, first);
    ScanTakesLvd(image, bs, loc, q, n, first, volume);
    ScanPasses(image, bs, loc, q + 1, end, n, both);
    ScanEnds(image, bs, loc, end, n, both);
  }

  lemma ScanOfPlan(image: seq<byte>, v: Plan)
    requires PlanFits(v) && CarriesSequence(image, v)
    ensures ScanFrom(image, v.bs, v.loc, 0, DivCeil(v.len, v.bs), NOTHING) == Ok(ScanOf(v))
  {
    PdShown(image, v.layout.pd, v);
    LvdShown(image, v.layout.lvd, v);
    ScanOfTwo(image, v.bs, v.loc, v.layout, DivCeil(v.len, v.bs), v.number, v.start, VolumeOf(v));
  }

  /** The kind of the map the volume refers to. */
  function KindOf(v: Plan): PartitionKind {
    if v.partRef < |v.maps| then v.maps[v.partRef].content.kind else Unknown
  }

  /** The only partition is the one, referred to or not. */
  lemma ResolvedPlan(v: Plan)
    requires v.start + v.fsdLbn <= U32_MAX
    ensures Resolve(ScanOf(v)) == Some(VdsInfo(v.start, v.start + v.fsdLbn, KindOf(v), |v.maps|))
  {
    var starts := ScanOf(v).pdStart;
    assert starts[v.number] == v.start;
    assert starts.Values == {v.start};
    LeastIsUnique(starts.Values, v.start);
  }

  lemma RootOfBlock(image: seq<byte>, bs: nat, lba: U32, r: FsdRest, start: U32, rootLbn: U32)
    requires FsdFits(r) && start + rootLbn <= U32_MAX && BlockHolds(image, bs, lba, EncodeFsd(r, rootLbn))
    ensures RootOf(image, bs, lba, start) == Ok(Some(start + rootLbn))
  {
    FsdFields(ReadBlock(image, bs, lba).value, r, rootLbn);
  }

  lemma RootOfPlan(image: seq<byte>, v: Plan)
    requires PlanFits(v) && BlockHolds(image, v.bs, v.start + v.fsdLbn, EncodeFsd(v.fsd, v.rootLbn))
    ensures RootOf(image, v.bs, v.start + v.fsdLbn, v.start) == Ok(Some(v.start + v.rootLbn))
  {
    RootOfBlock(image, v.bs, v.start + v.fsdLbn, v.fsd, v.start, v.rootLbn);
  }

  lemma AnchorOfPlan(image: seq<byte>, v: Plan)
    requires PlanFits(v) && Carries(image, v)
    ensures ReadBlock(image, v.bs, ANCHOR).Ok?
    ensures Le32(ReadBlock(image, v.bs, ANCHOR).value, 16) == v.len &&
      Le32(ReadBlock(image, v.bs, ANCHOR).value, 20) == v.loc
  {
    AnchorFields(ReadBlock(image, v.bs, ANCHOR).value, v.anchor, v.len, v.loc);
  }

  /** A carried plan is an anchor for its own block size, so with 2048-byte blocks nothing comes first. */
  lemma PlanIsAnchor(image: seq<byte>, v: Plan)
    requires PlanFits(v) && Carries(image, v)
    ensures IsAnchor(image, v.bs)
    ensures v.bs == 2048 ==> FirstAnchor(image, CANDIDATES) == Some(v.bs)
  {
    var block := ReadBlock(image, v.bs, ANCHOR).value;
    AnchorFields(block, v.anchor, v.len, v.loc);
    var tag := ReadExact(image, ANCHOR * v.bs, 16).value;
    assert tag[0..16] == block[0..16];
    SameFields(tag, 0, block, 0, 16, 0);
    SameFields(tag, 0, block, 0, 16, 12);
  }

  /** The reader's steps, one by one, find what was planned. */
  ghost predicate Found(image: seq<byte>, v: Plan) {
    && v.bs > 0 && v.start + v.fsdLbn <= U32_MAX && v.start + v.rootLbn <= U32_MAX && ReadBlock(image, v.bs, ANCHOR).Ok?
    && Le32(ReadBlock(image, v.bs, ANCHOR).value, 16) == v.len &&
      Le32(ReadBlock(image, v.bs, ANCHOR).value, 20) == v.loc
    && ScanFrom(image, v.bs, v.loc, 0, DivCeil(v.len, v.bs), NOTHING) == Ok(ScanOf(v))
    && Resolve(ScanOf(v)) == Some(VdsInfo(v.start, v.start + v.fsdLbn, KindOf(v), |v.maps|))
    && RootOf(image, v.bs, v.start + v.fsdLbn, v.start) == Ok(Some(v.start + v.rootLbn))
  }

  function StateOfPlan(v: Plan): UdfState
    requires v.bs > 0 && v.start + v.fsdLbn <= U32_MAX && v.start + v.rootLbn <= U32_MAX
  {
    UdfState(v.start, v.start + v.rootLbn, KindOf(v), |v.maps|, v.bs, v.start + v.fsdLbn, v.loc, DivCeil(v.len, v.bs))
  }

  lemma StateFound(image: seq<byte>, v: Plan)
    requires Found(image, v) && BlockSizeOf(image) == Ok(Some(v.bs))
    ensures StateOf(image) == Ok(Some(StateOfPlan(v)))
  {
  }

  lemma PlanFound(image: seq<byte>, v: Plan)
    requires PlanFits(v) && Carries(image, v)
    ensures Found(image, v)
  {
    AnchorOfPlan(image, v);
    ScanOfPlan(image, v);
    ResolvedPlan(v);
    RootOfPlan(image, v);
  }

  lemma FirstAnchorIsBlockSize(image: seq<byte>, bs: nat)
    requires FirstAnchor(image, CANDIDATES) == Some(bs)
    ensures BlockSizeOf(image) == Ok(Some(bs))
  {
  }

  /** A volume mounts as planned, provided no other candidate block size is taken first. */
  lemma PlanMounts(image: seq<byte>, v: Plan)
    requires PlanFits(v) && Carries(image, v)
    requires FirstAnchor(image, CANDIDATES) == Some(v.bs)
    ensures StateOf(image) == Ok(Some(StateOfPlan(v)))
  {
    PlanFound(image, v);
    FirstAnchorIsBlockSize(image, v.bs);
    StateFound(image, v);
  }

  /** With 2048-byte blocks that is always so. */
  lemma PlanMountsFirst(image: seq<byte>, v: Plan)
    requires PlanFits(v) && Carries(image, v) && v.bs == 2048
    ensures StateOf(image) == Ok(Some(StateOfPlan(v)))
  {
    PlanIsAnchor(image, v);
    PlanMounts(image, v);
  }

  // ----- node fields -----

  /** File type, length and modification time of an encoded File Entry, base or extended. */
  lemma NodeFields(p: Place, feLba: U32, f: Representation.Filler, tag: U16, flags: U16, infoLen: U64, area: seq<byte>)
    requires ValidPlace(p) && tag in {260, 261, 266} && Representation.FillerFits(f, tag) && |area| <= U32_MAX
    requires ReadBlock(p.image, p.bs, feLba) == Ok(Representation.EncodeEntry(f, tag, flags, infoLen, area))
    ensures Vfs.Scratch(p, feLba) ==
      Some(Vfs.FeMeta(f.fileType == 4, Vfs.KindOfFileType(f.fileType), infoLen))
    ensures Walk.ModificationTime(ReadBlock(p.image, p.bs, feLba).value) == Timestamps.DecodeTimestamp(f.modified)
  {
    var s := ReadBlock(p.image, p.bs, feLba).value;
    Representation.EntryPieces(f, tag, flags, infoLen, area);
    Representation.HeadOf(s, f, tag, flags, infoLen);
    Representation.ModifiedField(f, tag, flags, infoLen, area);
  }
}
