/** The bootstrap chain: anchor, Volume Descriptor Sequence, File Set Descriptor. */
module Volume {
  import opened Bytes
  import opened Tags
  import opened PartitionMaps

  datatype UdfState = UdfState(
    partitionStart: U32,
    rootFeLba: U32,
    partitionKind: PartitionKind,
    partitionMapCount: nat,
    blockSize: nat,
    fsdLba: U32,
    vdsLoc: U32,
    vdsLenSectors: nat)

  // ----- the anchor -----

  /** The logical sector of the Anchor Volume Descriptor Pointer. */
  const ANCHOR: nat := 256

  const CANDIDATES: seq<nat> := [2048, 512, 1024, 4096]

  predicate AnchorReadable(image: seq<byte>, bs: nat) {
    ReadExact(image, ANCHOR * bs, 16).Ok?
  }

  /** Sector 256, at this block size, carries an AVDP tag that records location 256. */
  predicate IsAnchor(image: seq<byte>, bs: nat) {
    AnchorReadable(image, bs) &&
    var tag := ReadExact(image, ANCHOR * bs, 16).value;
    Le16(tag, 0) == TAG_AVDP && Le32(tag, 12) == ANCHOR
  }

  predicate FirstAt(image: seq<byte>, candidates: seq<nat>, i: nat) {
    i < |candidates| && IsAnchor(image, candidates[i]) && forall k :: 0 <= k < i ==> !IsAnchor(image, candidates[k])
  }

  function FirstAnchor(image: seq<byte>, candidates: seq<nat>): (r: Option<nat>)
    ensures r.None? ==> forall i :: 0 <= i < |candidates| ==> !IsAnchor(image, candidates[i])
    ensures r.Some? ==> exists i :: 0 <= i < |candidates| && FirstAt(image, candidates, i) && candidates[i] == r.value
  {
    if candidates == [] then None
    else if IsAnchor(image, candidates[0]) then assert FirstAt(image, candidates, 0); Some(candidates[0])
    else
      var rest := FirstAnchor(image, candidates[1..]);
      assert rest.Some? ==> forall i :: 0 <= i < |candidates| - 1 && FirstAt(image, candidates[1..], i) ==>
        FirstAt(image, candidates, i + 1);
      rest
  }

  function BlockSizeOf(image: seq<byte>): (r: Result<Option<nat>>)
    ensures r.Ok? && r.value.Some? ==> IsBlockSize(r.value.value) && IsAnchor(image, r.value.value)
  {
    match FirstAnchor(image, CANDIDATES)
    case Some(bs) => Ok(Some(bs))
    case None =>
      if exists bs :: bs in CANDIDATES && AnchorReadable(image, bs) then Ok(None) else Err(UnexpectedEof)
  }

  method DetectBlockSize(image: seq<byte>) returns (r: Result<Option<nat>>)
    ensures r == BlockSizeOf(image)
  {
    var lastEof: Option<Error> := None;
    var anyReadOk := false;
    for i := 0 to |CANDIDATES|
      invariant anyReadOk <==> exists k :: 0 <= k < i && AnchorReadable(image, CANDIDATES[k])
      invariant !anyReadOk && i > 0 ==> lastEof == Some(UnexpectedEof)
      invariant FirstAnchor(image, CANDIDATES) == FirstAnchor(image, CANDIDATES[i..])
    {
      var bs := CANDIDATES[i];
      var read := ReadExact(image, ANCHOR * bs, 16);
      if read.Ok? {
        anyReadOk := true;
        if Le16(read.value, 0) == TAG_AVDP && Le32(read.value, 12) == ANCHOR {
          return Ok(Some(bs));
        }
      } else {
        lastEof := Some(read.error);
      }
    }
    if !anyReadOk && lastEof.Some? {
      return Err(lastEof.value);
    }
    return Ok(None);
  }

  /**
   * Detection fails only on an image that ends before every possible anchor;
   * otherwise it answers the first candidate, in order, that has an anchor.
   */
  lemma BlockSizeIsFirstAnchor(image: seq<byte>)
    ensures BlockSizeOf(image).Err? <==> |image| < ANCHOR * 512 + 16
    ensures BlockSizeOf(image) == Ok(None) ==> forall bs | IsBlockSize(bs) :: !IsAnchor(image, bs)
    ensures BlockSizeOf(image).Ok? && BlockSizeOf(image).value.Some? ==>
      exists i :: 0 <= i < 4 && FirstAt(image, CANDIDATES, i) && CANDIDATES[i] == BlockSizeOf(image).value.value
  {
    assert CANDIDATES[0] == 2048 && CANDIDATES[1] == 512 && CANDIDATES[2] == 1024 && CANDIDATES[3] == 4096;
    assert AnchorReadable(image, 512) <==> |image| >= ANCHOR * 512 + 16;
    assert 512 in CANDIDATES;
  }

  // ----- the Volume Descriptor Sequence -----

  datatype LogicalVolume = LogicalVolume(fsdLbn: U32, partRef: U16, maps: seq<PartitionMap>)

  /** What the scan has collected: each partition's start, and the last Logical Volume Descriptor. */
  datatype Scan = Scan(pdStart: map<U16, U32>, volume: Option<LogicalVolume>)

  const NOTHING: Scan := Scan(map[], None)

  predicate Stops(s: seq<byte>) {
    TagIdent(s) == TAG_TERM || TagIdent(s) == 0
  }

  function VolumeIn(s: seq<byte>): LogicalVolume {
    LogicalVolume(Le32(s, 252), Le16(s, 256), MapsOf(s))
  }

  function Absorb(scan: Scan, s: seq<byte>): Scan {
    if TagIdent(s) == TAG_PD then scan.(pdStart := scan.pdStart[Le16(s, 22) := Le32(s, 188)])
    else if TagIdent(s) == TAG_LVD then scan.(volume := Some(VolumeIn(s)))
    else scan
  }

  /** Read sectors `i` to `n` of the sequence, up to the first one that stops it. */
  function ScanFrom(image: seq<byte>, bs: nat, loc: U32, i: nat, n: nat, scan: Scan): Result<Scan>
    decreases n - i
  {
    if i >= n then Ok(scan)
    else
      match ReadBlock(image, bs, loc + i)
      case Err(e) => Err(e)
      case Ok(s) => if Stops(s) then Ok(scan) else ScanFrom(image, bs, loc, i + 1, n, Absorb(scan, s))
  }

  method ScanVds(image: seq<byte>, bs: nat, loc: U32, n: nat) returns (r: Result<Scan>)
    requires IsBlockSize(bs)
    ensures r == ScanFrom(image, bs, loc, 0, n, NOTHING)
  {
    var pdStart: map<U16, U32> := map[];
    var volume: Option<LogicalVolume> := None;
    for i := 0 to n
      invariant ScanFrom(image, bs, loc, 0, n, NOTHING) == ScanFrom(image, bs, loc, i, n, Scan(pdStart, volume))
    {
      var read := ReadBlock(image, bs, loc + i);
      if read.Err? {
        return Err(read.error);
      }
      var sector := read.value;
      var tag := Le16(sector, 0);
      if tag == TAG_PD {
        pdStart := pdStart[Le16(sector, 22) := Le32(sector, 188)];
      } else if tag == TAG_LVD {
        var maps := ParsePartitionMaps(sector);
        volume := Some(LogicalVolume(Le32(sector, 252), Le16(sector, 256), maps));
      } else if tag == TAG_TERM || tag == 0 {
        break;
      }
    }
    r := Ok(Scan(pdStart, volume));
  }

  /** The sectors the reader interprets: those before the first one that stops it. */
  function Interpreted(image: seq<byte>, bs: nat, loc: U32, i: nat, n: nat): (r: Result<seq<seq<byte>>>)
    ensures r.Ok? && i <= n ==> |r.value| <= n - i
    ensures r.Ok? ==> forall k :: 0 <= k < |r.value| ==> !Stops(r.value[k])
    decreases n - i
  {
    if i >= n then Ok([])
    else
      match ReadBlock(image, bs, loc + i)
      case Err(e) => Err(e)
      case Ok(s) =>
        if Stops(s) then Ok([])
        else
          match Interpreted(image, bs, loc, i + 1, n)
          case Err(e) => Err(e)
          case Ok(rest) => Ok([s] + rest)
  }

  function Collect(scan: Scan, sectors: seq<seq<byte>>): Scan {
    if sectors == [] then scan
    else Absorb(Collect(scan, sectors[..|sectors| - 1]), sectors[|sectors| - 1])
  }

  lemma {:induction false} CollectFirst(scan: Scan, s: seq<byte>, rest: seq<seq<byte>>)
    ensures Collect(scan, [s] + rest) == Collect(Absorb(scan, s), rest)
  {
    if rest == [] {
      assert [s] + rest == [s] && [s][..0] == [];
    } else {
      var n := |rest| - 1;
      assert ([s] + rest)[..|rest|] == [s] + rest[..n];
      CollectFirst(scan, s, rest[..n]);
    }
  }

  /** The scan is the fold over the interpreted sectors. */
  lemma {:induction false} ScanIsFold(image: seq<byte>, bs: nat, loc: U32, i: nat, n: nat, scan: Scan)
    ensures ScanFrom(image, bs, loc, i, n, scan) ==
      match Interpreted(image, bs, loc, i, n)
      case Err(e) => Err(e)
      case Ok(sectors) => Ok(Collect(scan, sectors))
    decreases n - i
  {
    if i < n && ReadBlock(image, bs, loc + i).Ok? && !Stops(ReadBlock(image, bs, loc + i).value) {
      var s := ReadBlock(image, bs, loc + i).value;
      ScanIsFold(image, bs, loc, i + 1, n, Absorb(scan, s));
      if Interpreted(image, bs, loc, i + 1, n).Ok? {
        CollectFirst(scan, s, Interpreted(image, bs, loc, i + 1, n).value);
      }
    }
  }

  predicate IsPd(s: seq<byte>, number: U16) {
    TagIdent(s) == TAG_PD && Le16(s, 22) == number
  }

  predicate IsLvd(s: seq<byte>) {
    TagIdent(s) == TAG_LVD
  }

  /** The last Partition Descriptor with this number, or -1. */
  function LastPd(sectors: seq<seq<byte>>, number: U16): (k: int)
    ensures -1 <= k < |sectors| && (k >= 0 ==> IsPd(sectors[k], number))
    ensures forall j :: k < j < |sectors| ==> !IsPd(sectors[j], number)
  {
    if sectors == [] || IsPd(sectors[|sectors| - 1], number) then |sectors| - 1
    else LastPd(sectors[..|sectors| - 1], number)
  }

  /** The last Logical Volume Descriptor, or -1. */
  function LastLvd(sectors: seq<seq<byte>>): (k: int)
    ensures -1 <= k < |sectors| && (k >= 0 ==> IsLvd(sectors[k]))
    ensures forall j :: k < j < |sectors| ==> !IsLvd(sectors[j])
  {
    if sectors == [] || IsLvd(sectors[|sectors| - 1]) then |sectors| - 1
    else LastLvd(sectors[..|sectors| - 1])
  }

  /** The fold keeps the last Partition Descriptor of each number and the last Logical Volume Descriptor. */
  lemma {:induction false} LastWins(sectors: seq<seq<byte>>, number: U16)
    ensures var k, scan := LastPd(sectors, number), Collect(NOTHING, sectors);
      (number in scan.pdStart <==> k >= 0) && (k >= 0 ==> scan.pdStart[number] == Le32(sectors[k], 188))
    ensures var k := LastLvd(sectors);
      Collect(NOTHING, sectors).volume == if k >= 0 then Some(VolumeIn(sectors[k])) else None
  {
    if sectors != [] {
      LastWins(sectors[..|sectors| - 1], number);
    }
  }

  // ----- resolving the file set's partition -----

  ghost predicate IsLeast(s: set<U32>, m: U32) {
    m in s && forall x :: x in s ==> m <= x
  }

  lemma LeastOfTwo(s: set<U32>, x: U32, m: U32)
    requires x in s && IsLeast(s - {x}, m)
    ensures IsLeast(s, if x < m then x else m)
  {
    forall y | y in s
      ensures (if x < m then x else m) <= y
    {
      assert y == x || y in s - {x};
    }
  }

  lemma {:induction false} LeastExists(s: set<U32>)
    requires s != {}
    ensures exists m :: IsLeast(s, m)
  {
    var x :| x in s;
    var rest := s - {x};
    if rest == {} {
      assert s == {x};
      assert IsLeast(s, x);
    } else {
      LeastExists(rest);
      var m :| IsLeast(rest, m);
      LeastOfTwo(s, x, m);
    }
  }

  ghost function Least(s: set<U32>): (m: U32)
    requires s != {}
    ensures IsLeast(s, m)
  {
    LeastExists(s);
    var m: U32 :| IsLeast(s, m);
    m
  }

  lemma LeastIsUnique(s: set<U32>, m: U32)
    requires IsLeast(s, m)
    ensures Least(s) == m
  {
  }

  /** The minimum is found whatever order the map hands its values out in. */
  method MinStart(starts: set<U32>) returns (r: Option<U32>)
    ensures r == if starts == {} then None else Some(Least(starts))
  {
    r := None;
    var rest := starts;
    while rest != {}
      invariant rest <= starts
      invariant r.None? ==> rest == starts
      invariant r.Some? ==> IsLeast(starts - rest, r.value)
      decreases |rest|
    {
      var x :| x in rest;
      ghost var seen := starts - rest;
      rest := rest - {x};
      assert starts - rest == seen + {x};
      if r.Some? {
        assert (seen + {x}) - {x} == seen;
        LeastOfTwo(seen + {x}, x, r.value);
      } else {
        assert seen == {};
      }
      if r.None? || x < r.value {
        r := Some(x);
      }
    }
    assert starts - rest == starts;
    if r.Some? {
      LeastIsUnique(starts, r.value);
    }
  }

  datatype VdsInfo = VdsInfo(partitionStart: U32, fsdLba: U32, kind: PartitionKind, mapCount: nat)

  /** The partition map the file set refers to. */
  function Referenced(v: LogicalVolume): Option<PartitionMap> {
    if v.partRef < |v.maps| then Some(v.maps[v.partRef]) else None
  }

  /** A referenced Type 1 map whose partition has a descriptor. */
  predicate ResolvesDirectly(scan: Scan, v: LogicalVolume) {
    Referenced(v).Some? && Referenced(v).value.number.Some? && Referenced(v).value.number.value in scan.pdStart
  }

  ghost function PartitionStart(scan: Scan, v: LogicalVolume): Option<U32> {
    if ResolvesDirectly(scan, v) then Some(scan.pdStart[Referenced(v).value.number.value])
    else if scan.pdStart.Values == {} then None
    else Some(Least(scan.pdStart.Values))
  }

  /** A location is reported only when the address sum stays in `u32`. */
  ghost function Resolve(scan: Scan): Option<VdsInfo> {
    if scan.volume.None? then None
    else
      var v := scan.volume.value;
      match PartitionStart(scan, v)
      case None => None
      case Some(start) =>
        if start + v.fsdLbn > U32_MAX then None
        else
          var kind := if Referenced(v).Some? then Referenced(v).value.kind else Unknown;
          Some(VdsInfo(start, start + v.fsdLbn, kind, |v.maps|))
  }

  function PdStart(sectors: seq<seq<byte>>, number: U16): U32
    requires LastPd(sectors, number) >= 0
  {
    Le32(sectors[LastPd(sectors, number)], 188)
  }

  /** The collected starts are those of the last Partition Descriptor of each number. */
  lemma CollectedStarts(sectors: seq<seq<byte>>)
    ensures var starts := Collect(NOTHING, sectors).pdStart;
      && (forall n: U16 :: n in starts <==> LastPd(sectors, n) >= 0)
      && (forall n: U16 :: LastPd(sectors, n) >= 0 ==>
        starts[n] == PdStart(sectors, n) && PdStart(sectors, n) in starts.Values)
  {
    var starts := Collect(NOTHING, sectors).pdStart;
    forall n: U16
      ensures n in starts <==> LastPd(sectors, n) >= 0
      ensures LastPd(sectors, n) >= 0 ==> starts[n] == PdStart(sectors, n) && PdStart(sectors, n) in starts.Values
    {
      LastWins(sectors, n);
    }
  }

  lemma ValueOfKey(m: map<U16, U32>, n: U16)
    requires n in m
    ensures m.Values != {}
  {
    assert m[n] in m.Values;
  }

  /**
   * Where the partition starts: where the referenced map's own descriptor
   * says, or at the lowest start of all when there is none.
   */
  lemma PartitionStartIs(sectors: seq<seq<byte>>, v: LogicalVolume)
    ensures var start := PartitionStart(Collect(NOTHING, sectors), v);
      var number := if Referenced(v).Some? then Referenced(v).value.number else None;
      && (start.None? <==> forall n: U16 :: LastPd(sectors, n) < 0)
      && (start.Some? ==>
            && (exists n: U16 :: LastPd(sectors, n) >= 0 && start.value == PdStart(sectors, n))
            && (if number.Some? && LastPd(sectors, number.value) >= 0 then start.value == PdStart(sectors, number.value)
                else forall n: U16 :: LastPd(sectors, n) >= 0 ==> start.value <= PdStart(sectors, n)))
  {
    var scan := Collect(NOTHING, sectors);
    CollectedStarts(sectors);
    var start := PartitionStart(scan, v);
    if start.Some? {
      assert start.value in scan.pdStart.Values;
      var n :| n in scan.pdStart && scan.pdStart[n] == start.value;
      assert LastPd(sectors, n) >= 0 && start.value == PdStart(sectors, n);
    } else {
      forall n: U16
        ensures LastPd(sectors, n) < 0
      {
        if n in scan.pdStart {
          ValueOfKey(scan.pdStart, n);
        }
      }
    }
  }

  /**
   * What the interpreted sectors determine: the last Logical Volume Descriptor
   * decides, and the File Set Descriptor lies at the unwrapped sum or nowhere.
   */
  lemma ResolvedFromSectors(sectors: seq<seq<byte>>)
    ensures var info, k := Resolve(Collect(NOTHING, sectors)), LastLvd(sectors);
      if k < 0 then info.None?
      else
        var v := VolumeIn(sectors[k]);
        var start := PartitionStart(Collect(NOTHING, sectors), v);
        && (info.Some? <==> start.Some? && start.value + Le32(sectors[k], 252) <= U32_MAX)
        && (info.Some? ==>
              && info.value.partitionStart == start.value
              && info.value.fsdLba == start.value + Le32(sectors[k], 252)
              && info.value.kind == (if v.partRef < |v.maps| then v.maps[v.partRef].kind else Unknown)
              && info.value.mapCount == |MapsOf(sectors[k])|)
  {
    LastWins(sectors, 0);
  }

  method ReadVdsChecked(image: seq<byte>, bs: nat, loc: U32, len: U32) returns (r: Result<Option<VdsInfo>>)
    requires IsBlockSize(bs)
    ensures var scan := ScanFrom(image, bs, loc, 0, DivCeil(len, bs), NOTHING);
      r == if scan.Ok? then Ok(Resolve(scan.value)) else Err(scan.error)
  {
    var scanned := ScanVds(image, bs, loc, DivCeil(len, bs));
    if scanned.Err? {
      return Err(scanned.error);
    }
    var scan := scanned.value;
    if scan.volume.None? {
      return Ok(None);
    }
    var v := scan.volume.value;
    var referenced := Referenced(v);
    var start: Option<U32> := None;
    if referenced.Some? && referenced.value.number.Some? && referenced.value.number.value in scan.pdStart {
      start := Some(scan.pdStart[referenced.value.number.value]);
    } else {
      start := MinStart(scan.pdStart.Values);
    }
    if start.None? || start.value + v.fsdLbn > U32_MAX {
      return Ok(None);
    }
    var kind := if referenced.Some? then referenced.value.kind else Unknown;
    return Ok(Some(VdsInfo(start.value, start.value + v.fsdLbn, kind, |v.maps|)));
  }

  // ----- the File Set Descriptor -----

  /** The plain `u32` sum of the root address is an error of its own when it leaves `u32`. */
  function RootOf(image: seq<byte>, bs: nat, fsdLba: U32, start: U32): Result<Option<U32>> {
    match ReadBlock(image, bs, fsdLba)
    case Err(e) => Err(e)
    case Ok(s) =>
      if TagIdent(s) != TAG_FSD then Ok(None)
      else if start + Le32(s, 404) > U32_MAX then Err(AddOverflow)
      else Ok(Some(start + Le32(s, 404)))
  }

  // ----- the chain -----

  ghost function StateOf(image: seq<byte>): Result<Option<UdfState>> {
    match BlockSizeOf(image)
    case Err(e) => Err(e)
    case Ok(None) => Ok(None)
    case Ok(Some(bs)) =>
      match ReadBlock(image, bs, ANCHOR)
      case Err(e) => Err(e)
      case Ok(avdp) =>
        var len, loc := Le32(avdp, 16), Le32(avdp, 20);
        match ScanFrom(image, bs, loc, 0, DivCeil(len, bs), NOTHING)
        case Err(e) => Err(e)
        case Ok(scan) =>
          match Resolve(scan)
          case None => Ok(None)
          case Some(info) =>
            match RootOf(image, bs, info.fsdLba, info.partitionStart)
            case Err(e) => Err(e)
            case Ok(None) => Ok(None)
            case Ok(Some(root)) =>
              Ok(Some(UdfState(info.partitionStart, root, info.kind, info.mapCount, bs, info.fsdLba, loc,
                DivCeil(len, bs))))
  }

  method ParseUdfStateChecked(image: seq<byte>) returns (r: Result<Option<UdfState>>)
    ensures r == StateOf(image)
    ensures r.Ok? && r.value.Some? ==> IsBlockSize(r.value.value.blockSize)
  {
    var detected := DetectBlockSize(image);
    if detected.Err? {
      return Err(detected.error);
    }
    if detected.value.None? {
      return Ok(None);
    }
    var bs := detected.value.value;
    var anchor := ReadBlock(image, bs, ANCHOR);
    if anchor.Err? {
      return Err(anchor.error);
    }
    assert Le16(anchor.value, 0) == Le16(ReadExact(image, ANCHOR * bs, 16).value, 0);
    if Le16(anchor.value, 0) != TAG_AVDP {
      assert false; // detection has already seen the tag
    }
    var len, loc := Le32(anchor.value, 16), Le32(anchor.value, 20);
    var vds := ReadVdsChecked(image, bs, loc, len);
    if vds.Err? {
      return Err(vds.error);
    }
    if vds.value.None? {
      return Ok(None);
    }
    var info := vds.value.value;
    var root := RootOf(image, bs, info.fsdLba, info.partitionStart);
    if root.Err? {
      return Err(root.error);
    }
    if root.value.None? {
      return Ok(None);
    }
    return Ok(Some(UdfState(info.partitionStart, root.value.value, info.kind, info.mapCount, bs, info.fsdLba, loc,
      DivCeil(len, bs))));
  }

  // ----- the cases by number -----

  /** A sequence ends at a Terminating Descriptor or a zero tag, and at nothing else. */
  lemma StopsAre(s: seq<byte>)
    ensures Stops(s) <==> Le16(s, 0) == 8 || Le16(s, 0) == 0
    ensures IsLvd(s) <==> Le16(s, 0) == 6
    ensures forall number: U16 :: IsPd(s, number) <==> Le16(s, 0) == 5 && Le16(s, 22) == number
  {
  }

  /** An anchor is tag 2 with location 256, in block 256. */
  lemma AnchorIs(image: seq<byte>, bs: nat)
    requires bs > 0
    ensures IsAnchor(image, bs) <==>
      && 256 * bs + 16 <= |image|
      && Le16(image[256 * bs..256 * bs + 16], 0) == 2 && Le32(image[256 * bs..256 * bs + 16], 12) == 256
  {
  }

  /** The block sizes are tried in this order. */
  lemma BlockSizeIs(image: seq<byte>)
    ensures BlockSizeOf(image) ==
      if |image| < 256 * 512 + 16 then Err(UnexpectedEof)
      else if IsAnchor(image, 2048) then Ok(Some(2048))
      else if IsAnchor(image, 512) then Ok(Some(512))
      else if IsAnchor(image, 1024) then Ok(Some(1024))
      else if IsAnchor(image, 4096) then Ok(Some(4096))
      else Ok(None)
  {
    BlockSizeIsFirstAnchor(image);
    assert CANDIDATES[0] == 2048 && CANDIDATES[1] == 512 && CANDIDATES[2] == 1024 && CANDIDATES[3] == 4096;
  }

  /** The root's address is that of the File Set Descriptor, an overflow of its own, or missing with another tag. */
  lemma RootIs(image: seq<byte>, bs: nat, fsdLba: U32, start: U32)
    ensures var read := ReadBlock(image, bs, fsdLba);
      RootOf(image, bs, fsdLba, start) ==
        if read.Err? then Err(UnexpectedEof)
        else if Le16(read.value, 0) != 256 then Ok(None)
        else if start + Le32(read.value, 404) > U32_MAX then Err(AddOverflow)
        else Ok(Some(start + Le32(read.value, 404)))
  {
  }

  predicate IsSector(image: seq<byte>, bs: nat, lba: nat, s: seq<byte>) {
    ReadBlock(image, bs, lba) == Ok(s)
  }

  predicate StopsAt(image: seq<byte>, bs: nat, lba: nat) {
    ReadBlock(image, bs, lba).Ok? &&
    var tag := Le16(ReadBlock(image, bs, lba).value, 0);
    tag == 8 || tag == 0
  }

  /** The blocks of a sequence from the `i`-th on, up to its declared end or a block that ends it. */
  ghost predicate IsRun(image: seq<byte>, bs: nat, loc: U32, i: nat, n: nat, sectors: seq<seq<byte>>) {
    && i + |sectors| <= n
    && (forall k :: 0 <= k < |sectors| ==> IsSector(image, bs, loc + (i + k), sectors[k]))
    && (forall k :: 0 <= k < |sectors| ==> !Stops(sectors[k]))
    && (i + |sectors| == n || StopsAt(image, bs, loc + (i + |sectors|)))
  }

  lemma RunNext(image: seq<byte>, bs: nat, loc: U32, i: nat, n: nat, s: seq<byte>, rest: seq<seq<byte>>)
    requires IsSector(image, bs, loc + i, s) && !Stops(s)
    ensures IsRun(image, bs, loc, i, n, [s] + rest) <==> IsRun(image, bs, loc, i + 1, n, rest)
  {
    var sectors := [s] + rest;
    if IsRun(image, bs, loc, i, n, sectors) {
      forall k | 0 <= k < |rest|
        ensures IsSector(image, bs, loc + (i + 1 + k), rest[k]) && !Stops(rest[k])
      {
        assert sectors[k + 1] == rest[k] && IsSector(image, bs, loc + (i + (k + 1)), sectors[k + 1]);
      }
    }
    if IsRun(image, bs, loc, i + 1, n, rest) {
      forall k | 0 <= k < |sectors|
        ensures IsSector(image, bs, loc + (i + k), sectors[k]) && !Stops(sectors[k])
      {
        if k > 0 {
          assert sectors[k] == rest[k - 1] && IsSector(image, bs, loc + (i + 1 + (k - 1)), rest[k - 1]);
        }
      }
    }
  }

  lemma RunBegins(image: seq<byte>, bs: nat, loc: U32, i: nat, n: nat, sectors: seq<seq<byte>>)
    requires sectors != []
    ensures IsRun(image, bs, loc, i, n, sectors) ==>
      i < n && IsSector(image, bs, loc + i, sectors[0]) && !Stops(sectors[0])
  {
    if IsRun(image, bs, loc, i, n, sectors) {
      assert IsSector(image, bs, loc + (i + 0), sectors[0]);
    }
  }

  /** The interpreted sectors are that run, and there is only one. */
  lemma {:induction false} InterpretedIsRun(image: seq<byte>, bs: nat, loc: U32, i: nat, n: nat,
      sectors: seq<seq<byte>>)
    requires i <= n
    ensures Interpreted(image, bs, loc, i, n) == Ok(sectors) <==> IsRun(image, bs, loc, i, n, sectors)
    decreases n - i
  {
    if i < n && ReadBlock(image, bs, loc + i).Ok? && !Stops(ReadBlock(image, bs, loc + i).value) {
      var s := ReadBlock(image, bs, loc + i).value;
      if sectors == [] {
        assert !StopsAt(image, bs, loc + (i + 0));
      } else {
        RunBegins(image, bs, loc, i, n, sectors);
        if sectors[0] == s {
          assert sectors == [s] + sectors[1..];
          RunNext(image, bs, loc, i, n, s, sectors[1..]);
        }
        InterpretedIsRun(image, bs, loc, i + 1, n, sectors[1..]);
      }
    } else if sectors != [] {
      RunBegins(image, bs, loc, i, n, sectors);
    }
  }

  /** The map record the volume refers to tells the kind. */
  function KindIn(v: LogicalVolume): PartitionKind {
    if v.partRef < |v.maps| then v.maps[v.partRef].kind else Unknown
  }

  /** What the sectors of a sequence tell of a volume: its partition, its file set, its map. */
  ghost predicate IsDescribed(sectors: seq<seq<byte>>, st: UdfState) {
    LastLvd(sectors) >= 0 &&
    var v := VolumeIn(sectors[LastLvd(sectors)]);
    && PartitionStart(Collect(NOTHING, sectors), v) == Some(st.partitionStart)
    && st.fsdLba == st.partitionStart + v.fsdLbn
    && st.partitionKind == KindIn(v) && st.partitionMapCount == |v.maps|
  }

  /** The sequence and the file set it leads to tell this state. */
  ghost predicate IsTold(image: seq<byte>, bs: nat, loc: U32, n: nat, st: UdfState) {
    var sectors := Interpreted(image, bs, loc, 0, n);
    sectors.Ok? && IsDescribed(sectors.value, st) &&
    var fileSet := ReadBlock(image, bs, st.fsdLba);
    fileSet.Ok? && Le16(fileSet.value, 0) == 256 && st.rootFeLba == st.partitionStart + Le32(fileSet.value, 404)
  }

  predicate IsAnchoredAt(image: seq<byte>, bs: nat, loc: U32, n: nat) {
    var anchor := ReadBlock(image, bs, 256);
    bs > 0 && anchor.Ok? && loc == Le32(anchor.value, 20) && n == DivCeil(Le32(anchor.value, 16), bs)
  }

  /** What the parsed state of an image says. */
  ghost predicate IsState(image: seq<byte>, st: UdfState) {
    && BlockSizeOf(image) == Ok(Some(st.blockSize))
    && IsAnchoredAt(image, st.blockSize, st.vdsLoc, st.vdsLenSectors)
    && IsTold(image, st.blockSize, st.vdsLoc, st.vdsLenSectors, st)
  }

  lemma ResolvedIs(sectors: seq<seq<byte>>, st: UdfState)
    ensures IsDescribed(sectors, st) <==>
      Resolve(Collect(NOTHING, sectors)) ==
        Some(VdsInfo(st.partitionStart, st.fsdLba, st.partitionKind, st.partitionMapCount))
  {
    LastWins(sectors, 0);
  }

  /** The scan of a sequence resolves to what its sectors tell. */
  lemma ScanTells(image: seq<byte>, bs: nat, loc: U32, n: nat, st: UdfState)
    ensures var scan, sectors := ScanFrom(image, bs, loc, 0, n, NOTHING), Interpreted(image, bs, loc, 0, n);
      && (scan.Ok? <==> sectors.Ok?)
      && (scan.Ok? ==>
            (Resolve(scan.value) == Some(VdsInfo(st.partitionStart, st.fsdLba, st.partitionKind, st.partitionMapCount))
             <==> IsDescribed(sectors.value, st)))
  {
    ScanIsFold(image, bs, loc, 0, n, NOTHING);
    var sectors := Interpreted(image, bs, loc, 0, n);
    if sectors.Ok? {
      ResolvedIs(sectors.value, st);
    }
  }

  /** The steps of the reader, as one condition. */
  ghost predicate IsReached(image: seq<byte>, bs: nat, loc: U32, n: nat, st: UdfState) {
    var scan := ScanFrom(image, bs, loc, 0, n, NOTHING);
    && scan.Ok?
    && Resolve(scan.value) == Some(VdsInfo(st.partitionStart, st.fsdLba, st.partitionKind, st.partitionMapCount))
    && RootOf(image, bs, st.fsdLba, st.partitionStart) == Ok(Some(st.rootFeLba))
  }

  lemma ReachedIsTold(image: seq<byte>, bs: nat, loc: U32, n: nat, st: UdfState)
    ensures IsReached(image, bs, loc, n, st) <==> IsTold(image, bs, loc, n, st)
  {
    ScanTells(image, bs, loc, n, st);
    RootIs(image, bs, st.fsdLba, st.partitionStart);
  }

  lemma StateIsReached(image: seq<byte>, st: UdfState)
    ensures StateOf(image) == Ok(Some(st)) <==>
      && BlockSizeOf(image) == Ok(Some(st.blockSize))
      && IsAnchoredAt(image, st.blockSize, st.vdsLoc, st.vdsLenSectors)
      && IsReached(image, st.blockSize, st.vdsLoc, st.vdsLenSectors, st)
  {
  }

  /** An image parses to a state exactly when its descriptors say every field of it. */
  lemma StateIs(image: seq<byte>, st: UdfState)
    ensures StateOf(image) == Ok(Some(st)) <==> IsState(image, st)
  {
    StateIsReached(image, st);
    ReachedIsTold(image, st.blockSize, st.vdsLoc, st.vdsLenSectors, st);
  }
}
