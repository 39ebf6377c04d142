/** The audit of the bootstrap descriptors, and its agreement with the reader that interpreted them. */
module Bootstrap {
  import opened Bytes
  import opened Lists
  import opened Tags
  import opened Volume

  // ----- the two walks of the Volume Descriptor Sequence -----

  /** The addresses the reader looks at, the one that stops it included. */
  function ReaderWalk(image: seq<byte>, bs: nat, loc: nat, i: nat, n: nat): Result<seq<nat>>
    decreases n - i
  {
    if i >= n then Ok([])
    else
      match ReadBlock(image, bs, loc + i)
      case Err(e) => Err(e)
      case Ok(s) =>
        if Stops(s) then Ok([loc + i])
        else
          match ReaderWalk(image, bs, loc, i + 1, n)
          case Err(e) => Err(e)
          case Ok(rest) => Ok([loc + i] + rest)
  }

  /** The addresses the auditor looks at: its sum saturates at the top of `u32`. */
  function AuditWalk(image: seq<byte>, bs: nat, loc: U32, i: nat, n: nat): Result<seq<U32>>
    decreases n - i
  {
    if i >= n then Ok([])
    else
      var lba := Min(loc + i, U32_MAX);
      match ReadBlock(image, bs, lba)
      case Err(e) => Err(e)
      case Ok(s) =>
        if Stops(s) then Ok([lba])
        else
          match AuditWalk(image, bs, loc, i + 1, n)
          case Err(e) => Err(e)
          case Ok(rest) => Ok([lba] + rest)
  }

  function Prepend(seen: seq<U32>, rest: Result<seq<U32>>): Result<seq<U32>> {
    if rest.Ok? then Ok(seen + rest.value) else rest
  }

  lemma AuditDone(image: seq<byte>, bs: nat, loc: U32, n: nat, seen: seq<U32>)
    ensures Prepend(seen, AuditWalk(image, bs, loc, n, n)) == Ok(seen)
  {
    assert seen + [] == seen;
  }

  lemma AuditStart(walk: Result<seq<U32>>)
    ensures Prepend([], walk) == walk
  {
    if walk.Ok? {
      assert [] + walk.value == walk.value;
    }
  }

  lemma AuditStep(image: seq<byte>, bs: nat, loc: U32, i: nat, n: nat, seen: seq<U32>)
    requires i < n
    ensures var lba, all := Min(loc + i, U32_MAX), Prepend(seen, AuditWalk(image, bs, loc, i, n));
      match ReadBlock(image, bs, lba)
      case Err(e) => all == Err(e)
      case Ok(s) =>
        all == if Stops(s) then Ok(seen + [lba]) else Prepend(seen + [lba], AuditWalk(image, bs, loc, i + 1, n))
  {
    var lba := Min(loc + i, U32_MAX);
    var rest := AuditWalk(image, bs, loc, i + 1, n);
    if rest.Ok? {
      Regroup(seen, [lba], rest.value);
    }
  }

  /** What has been found when the addresses `seen` are dealt with. */
  ghost predicate Collected(image: seq<byte>, bs: nat, base: seq<Anomaly>, seen: seq<U32>, found: seq<Anomaly>)
    requires bs >= 16
  {
    found == base + FlatMap<U32, Anomaly>(TagAudit(image, bs), seen)
  }

  lemma CollectNext(image: seq<byte>, bs: nat, base: seq<Anomaly>, seen: seq<U32>, found: seq<Anomaly>, lba: U32)
    requires bs >= 16 && Collected(image, bs, base, seen, found)
    ensures Collected(image, bs, base, seen + [lba], found + TagAudit(image, bs)(lba))
  {
    FlatMapSnoc<U32, Anomaly>(TagAudit(image, bs), seen, lba);
    Regroup(base, FlatMap<U32, Anomaly>(TagAudit(image, bs), seen), TagAudit(image, bs)(lba));
  }

  lemma CollectNothing(image: seq<byte>, bs: nat, base: seq<Anomaly>)
    requires bs >= 16
    ensures Collected(image, bs, base, [], base)
  {
    assert base + [] == base;
  }

  /** The walk `walk` goes on at `i`, with `seen` dealt with. */
  ghost predicate AuditingAt(image: seq<byte>, st: UdfState, walk: Result<seq<U32>>, i: nat, base: seq<Anomaly>,
      seen: seq<U32>, found: seq<Anomaly>)
    requires st.blockSize >= 16
  {
    && Collected(image, st.blockSize, base, seen, found)
    && walk == Prepend(seen, AuditWalk(image, st.blockSize, st.vdsLoc, i, st.vdsLenSectors))
  }

  lemma AuditNext(image: seq<byte>, st: UdfState, walk: Result<seq<U32>>, i: nat, base: seq<Anomaly>, seen: seq<U32>,
      found: seq<Anomaly>)
    requires st.blockSize >= 16 && i < st.vdsLenSectors && AuditingAt(image, st, walk, i, base, seen, found)
    ensures var lba := Min(st.vdsLoc + i, U32_MAX);
      var after := found + TagAudit(image, st.blockSize)(lba);
      match ReadBlock(image, st.blockSize, lba)
      case Err(_) => walk.Err?
      case Ok(s) =>
        if Stops(s) then walk == Ok(seen + [lba]) && Collected(image, st.blockSize, base, seen + [lba], after)
        else AuditingAt(image, st, walk, i + 1, base, seen + [lba], after)
  {
    AuditStep(image, st.blockSize, st.vdsLoc, i, st.vdsLenSectors, seen);
    CollectNext(image, st.blockSize, base, seen, found, Min(st.vdsLoc + i, U32_MAX));
  }

  lemma AuditBegins(image: seq<byte>, st: UdfState, walk: Result<seq<U32>>, base: seq<Anomaly>)
    requires st.blockSize >= 16 && walk == AuditWalk(image, st.blockSize, st.vdsLoc, 0, st.vdsLenSectors)
    ensures AuditingAt(image, st, walk, 0, base, [], base)
  {
    AuditStart(walk);
    CollectNothing(image, st.blockSize, base);
  }

  method AuditVds(image: seq<byte>, st: UdfState, out: Report) returns (r: Result<()>)
    requires IsBlockSize(st.blockSize)
    modifies out
    ensures var walk := AuditWalk(image, st.blockSize, st.vdsLoc, 0, st.vdsLenSectors);
      (r.Ok? <==> walk.Ok?) &&
      (r.Ok? ==> out.found == old(out.found) + FlatMap<U32, Anomaly>(TagAudit(image, st.blockSize), walk.value))
  {
    ghost var walk := AuditWalk(image, st.blockSize, st.vdsLoc, 0, st.vdsLenSectors);
    ghost var seen: seq<U32> := [];
    AuditBegins(image, st, walk, out.found);
    for i := 0 to st.vdsLenSectors
      invariant AuditingAt(image, st, walk, i, old(out.found), seen, out.found)
    {
      AuditNext(image, st, walk, i, old(out.found), seen, out.found);
      var lba := Min(st.vdsLoc + i, U32_MAX);
      var tag := AuditTagAt(image, st.blockSize, lba, out);
      if tag.Err? {
        return Err(tag.error);
      }
      seen := seen + [lba];
      if tag.value == TAG_TERM || tag.value == 0 {
        return Ok(());
      }
    }
    AuditDone(image, st.blockSize, st.vdsLoc, st.vdsLenSectors, seen);
    return Ok(());
  }

  /** Anchor, sequence, File Set Descriptor. */
  function AuditedLbas(image: seq<byte>, st: UdfState): Result<seq<U32>> {
    if ReadBlock(image, st.blockSize, ANCHOR).Err? then Err(UnexpectedEof)
    else
      match AuditWalk(image, st.blockSize, st.vdsLoc, 0, st.vdsLenSectors)
      case Err(e) => Err(e)
      case Ok(vds) =>
        if ReadBlock(image, st.blockSize, st.fsdLba).Err? then Err(UnexpectedEof)
        else Ok([ANCHOR as U32] + vds + [st.fsdLba])
  }

  lemma FindingsOfThree<B>(f: U32 -> seq<B>, first: U32, middle: seq<U32>, last: U32)
    ensures FlatMap(f, [first] + middle + [last]) == f(first) + FlatMap(f, middle) + f(last)
  {
    FlatMapOne<U32, B>(f, first);
    FlatMapConcat<U32, B>(f, [first], middle);
    FlatMapSnoc<U32, B>(f, [first] + middle, last);
  }

  method AuditBootstrapTags(image: seq<byte>, st: UdfState, out: Report) returns (r: Result<()>)
    requires IsBlockSize(st.blockSize)
    modifies out
    ensures r.Ok? <==> AuditedLbas(image, st).Ok?
    ensures r.Ok? ==>
      out.found == old(out.found) + FlatMap<U32, Anomaly>(TagAudit(image, st.blockSize), AuditedLbas(image, st).value)
  {
    var bs := st.blockSize;
    var avdp := AuditTagAt(image, bs, ANCHOR, out);
    if avdp.Err? {
      return Err(avdp.error);
    }
    r := AuditVds(image, st, out);
    if r.Err? {
      return;
    }
    var fsd := AuditTagAt(image, bs, st.fsdLba, out);
    if fsd.Err? {
      return Err(fsd.error);
    }
    ghost var f := TagAudit(image, bs);
    ghost var vds := AuditWalk(image, bs, st.vdsLoc, 0, st.vdsLenSectors).value;
    FindingsOfThree(f, ANCHOR, vds, st.fsdLba);
    Regroup4(old(out.found), f(ANCHOR), FlatMap<U32, Anomaly>(f, vds), f(st.fsdLba));
    return Ok(());
  }

  // ----- agreement -----

  /** The auditor looks at what the reader looked at, as long as the addresses stay in `u32`. */
  lemma {:induction false} WalksAgree(image: seq<byte>, bs: nat, loc: U32, i: nat, n: nat)
    requires ReaderWalk(image, bs, loc, i, n).Ok?
    requires loc + i + |ReaderWalk(image, bs, loc, i, n).value| <= U32_MAX + 1
    ensures AuditWalk(image, bs, loc, i, n) == ReaderWalk(image, bs, loc, i, n)
    decreases n - i
  {
    if i < n && !Stops(ReadBlock(image, bs, loc + i).value) {
      WalksAgree(image, bs, loc, i + 1, n);
    }
  }

  /** Past the top of `u32` the auditor stays on the last address, the reader does not. */
  lemma {:induction false} WalksPart(image: seq<byte>, bs: nat, loc: U32, i: nat, n: nat)
    requires ReaderWalk(image, bs, loc, i, n).Ok? && loc + i <= U32_MAX + 1
    requires loc + i + |ReaderWalk(image, bs, loc, i, n).value| > U32_MAX + 1
    ensures AuditWalk(image, bs, loc, i, n) != ReaderWalk(image, bs, loc, i, n)
    decreases n - i
  {
    var reader, audit := ReaderWalk(image, bs, loc, i, n), AuditWalk(image, bs, loc, i, n);
    assert i < n && reader.value[0] == loc + i;
    if loc + i <= U32_MAX {
      WalksPart(image, bs, loc, i + 1, n);
      if audit.Ok? {
        assert audit.value[1..] == AuditWalk(image, bs, loc, i + 1, n).value;
        assert reader.value[1..] == ReaderWalk(image, bs, loc, i + 1, n).value;
      }
    }
  }

  /** Every address the reader looked at fits `u32`. */
  predicate SequenceInRange(image: seq<byte>, st: UdfState) {
    var walk := ReaderWalk(image, st.blockSize, st.vdsLoc, 0, st.vdsLenSectors);
    walk.Ok? && st.vdsLoc + |walk.value| <= U32_MAX + 1
  }

  /** The two walks of a readable sequence look at the same sectors exactly when its addresses fit `u32`. */
  lemma WalksAgreeExactly(image: seq<byte>, st: UdfState)
    requires ReaderWalk(image, st.blockSize, st.vdsLoc, 0, st.vdsLenSectors).Ok?
    ensures AuditWalk(image, st.blockSize, st.vdsLoc, 0, st.vdsLenSectors)
         == ReaderWalk(image, st.blockSize, st.vdsLoc, 0, st.vdsLenSectors)
      <==> SequenceInRange(image, st)
  {
    if SequenceInRange(image, st) {
      WalksAgree(image, st.blockSize, st.vdsLoc, 0, st.vdsLenSectors);
    } else {
      WalksPart(image, st.blockSize, st.vdsLoc, 0, st.vdsLenSectors);
    }
  }

  lemma {:induction false} WalkIsConsecutive(image: seq<byte>, bs: nat, loc: U32, i: nat, n: nat)
    requires ReaderWalk(image, bs, loc, i, n).Ok?
    ensures var walk := ReaderWalk(image, bs, loc, i, n).value;
      forall k :: 0 <= k < |walk| ==> walk[k] == loc + i + k
    decreases n - i
  {
    if i < n && !Stops(ReadBlock(image, bs, loc + i).value) {
      WalkIsConsecutive(image, bs, loc, i + 1, n);
    }
  }

  /** At the top of `u32` the auditor checks the last block again and again. */
  lemma {:induction false} SaturatedWalk(image: seq<byte>, bs: nat, loc: U32, i: nat, n: nat)
    requires loc + i >= U32_MAX
    requires ReadBlock(image, bs, U32_MAX).Ok? && !Stops(ReadBlock(image, bs, U32_MAX).value)
    ensures AuditWalk(image, bs, loc, i, n).Ok?
    ensures forall y :: y in AuditWalk(image, bs, loc, i, n).value ==> y == U32_MAX
    decreases n - i
  {
    if i < n {
      SaturatedWalk(image, bs, loc, i + 1, n);
    }
  }

  /** Whatever the addresses, the auditor looks at exactly those the reader looked at that fit `u32`. */
  lemma {:induction false} AuditCoversRead(image: seq<byte>, bs: nat, loc: U32, i: nat, n: nat)
    requires ReaderWalk(image, bs, loc, i, n).Ok? && loc + i <= U32_MAX
    ensures AuditWalk(image, bs, loc, i, n).Ok?
    ensures forall y: U32 ::
      y in AuditWalk(image, bs, loc, i, n).value <==> y in ReaderWalk(image, bs, loc, i, n).value
    decreases n - i
  {
    WalkIsConsecutive(image, bs, loc, i, n);
    if i < n && !Stops(ReadBlock(image, bs, loc + i).value) {
      if loc + i < U32_MAX {
        AuditCoversRead(image, bs, loc, i + 1, n);
      } else {
        SaturatedWalk(image, bs, loc, i + 1, n);
      }
    }
  }

  /** The sectors the reader interprets are those it looks at, in order, but for the last one when that stops it. */
  lemma {:induction false} InterpretedAreWalked(image: seq<byte>, bs: nat, loc: U32, i: nat, n: nat)
    requires Interpreted(image, bs, loc, i, n).Ok?
    ensures ReaderWalk(image, bs, loc, i, n).Ok?
    ensures var sectors, walk := Interpreted(image, bs, loc, i, n).value, ReaderWalk(image, bs, loc, i, n).value;
      && |sectors| <= |walk| <= |sectors| + 1
      && (forall k :: 0 <= k < |sectors| ==> ReadBlock(image, bs, walk[k]) == Ok(sectors[k]))
      && (|walk| == |sectors| + 1 ==>
            ReadBlock(image, bs, walk[|sectors|]).Ok? && Stops(ReadBlock(image, bs, walk[|sectors|]).value))
    decreases n - i
  {
    if i < n && !Stops(ReadBlock(image, bs, loc + i).value) {
      InterpretedAreWalked(image, bs, loc, i + 1, n);
    }
  }

  // ----- what a clean audit says -----

  predicate NoTagAnomaly(found: seq<Anomaly>) {
    forall a :: a in found ==> !IsTagAnomaly(a)
  }

  /** A recognised descriptor with a valid checksum, and a valid CRC wherever its span fits. */
  predicate Sound(s: seq<byte>) {
    |s| >= 16 && Recognised(s) && ChecksumValid(s) && (SpanFits(s) ==> CrcValid(s))
  }

  /** A readable block that is no recognised descriptor, or a sound one. */
  predicate Passes(image: seq<byte>, bs: nat, lba: nat) {
    ReadBlock(image, bs, lba).Ok? && Recognised(ReadBlock(image, bs, lba).value) ==>
      Sound(ReadBlock(image, bs, lba).value)
  }

  /** A descriptor the scan takes something from. */
  predicate Determining(s: seq<byte>) {
    TagIdent(s) == TAG_PD || IsLvd(s)
  }

  predicate BlockIsSound(image: seq<byte>, bs: nat, lba: nat) {
    ReadBlock(image, bs, lba).Ok? && Sound(ReadBlock(image, bs, lba).value)
  }

  /**
   * Anchor, File Set Descriptor and, up to address `top`, the descriptors of the sequence that
   * determined the state.
   */
  ghost predicate SoundUpTo(image: seq<byte>, st: UdfState, top: nat) {
    var bs := st.blockSize;
    var sectors := Interpreted(image, bs, st.vdsLoc, 0, st.vdsLenSectors);
    && BlockIsSound(image, bs, ANCHOR) && BlockIsSound(image, bs, st.fsdLba)
    && sectors.Ok?
    && Collect(NOTHING, sectors.value).volume.Some?
    && forall k :: 0 <= k < |sectors.value| && st.vdsLoc + k <= top && Determining(sectors.value[k]) ==>
      Sound(sectors.value[k])
  }

  /** Every descriptor that determined the state, wherever it lies. */
  ghost predicate StateIsSound(image: seq<byte>, st: UdfState) {
    SoundUpTo(image, st, st.vdsLoc + st.vdsLenSectors)
  }

  lemma OnlyTagFindings(s: seq<byte>, lba: U32)
    requires |s| >= 16
    ensures forall a :: a in TagFindings(s, lba) ==> IsTagAnomaly(a)
  {
  }

  lemma AnchorIsTagged(image: seq<byte>, bs: nat)
    requires IsBlockSize(bs) && IsAnchor(image, bs) && ReadBlock(image, bs, ANCHOR).Ok?
    ensures TagIdent(ReadBlock(image, bs, ANCHOR).value) == TAG_AVDP
  {
    var tag := ReadExact(image, ANCHOR * bs, 16).value;
    assert Le16(ReadBlock(image, bs, ANCHOR).value, 0) == Le16(tag, 0);
  }

  /** What the reader's success says about the sectors it read. */
  lemma ParsedSectors(image: seq<byte>, st: UdfState)
    requires StateOf(image) == Ok(Some(st))
    ensures IsBlockSize(st.blockSize)
    ensures ReadBlock(image, st.blockSize, ANCHOR).Ok? &&
      TagIdent(ReadBlock(image, st.blockSize, ANCHOR).value) == TAG_AVDP
    ensures ReadBlock(image, st.blockSize, st.fsdLba).Ok? &&
      TagIdent(ReadBlock(image, st.blockSize, st.fsdLba).value) == TAG_FSD
    ensures var sectors := Interpreted(image, st.blockSize, st.vdsLoc, 0, st.vdsLenSectors);
      sectors.Ok? && Collect(NOTHING, sectors.value).volume.Some?
  {
    AnchorIsTagged(image, st.blockSize);
    ScanIsFold(image, st.blockSize, st.vdsLoc, 0, st.vdsLenSectors, NOTHING);
  }

  lemma SoundAt(image: seq<byte>, bs: nat, lbas: seq<U32>, y: U32)
    requires bs >= 16 && y in lbas
    requires NoTagAnomaly(FlatMap<U32, Anomaly>(TagAudit(image, bs), lbas))
    ensures Passes(image, bs, y)
  {
    if ReadBlock(image, bs, y).Ok? {
      var s := ReadBlock(image, bs, y).value;
      var k :| 0 <= k < |lbas| && lbas[k] == y;
      var found := TagFindings(s, y);
      assert TagAudit(image, bs)(y) == found;
      if found != [] {
        assert found[0] in found;
        FlatMapMember<U32, Anomaly>(TagAudit(image, bs), lbas, k, found[0]);
        OnlyTagFindings(s, y);
      }
      AuditIsExact(s, y);
    }
  }

  /**
   * An audit is free of tag findings exactly when every recognised descriptor
   * it looked at is sound.
   */
  lemma CleanExactlyWhenSound(image: seq<byte>, bs: nat, lbas: seq<U32>)
    requires bs >= 16
    ensures NoTagAnomaly(FlatMap<U32, Anomaly>(TagAudit(image, bs), lbas)) <==>
      forall y :: y in lbas ==> Passes(image, bs, y)
  {
    var f := TagAudit(image, bs);
    if NoTagAnomaly(FlatMap<U32, Anomaly>(f, lbas)) {
      forall y | y in lbas
        ensures Passes(image, bs, y)
      {
        SoundAt(image, bs, lbas, y);
      }
    } else {
      var a :| a in FlatMap<U32, Anomaly>(f, lbas) && IsTagAnomaly(a);
      var k := FlatMapSource<U32, Anomaly>(f, lbas, a);
      assert ReadBlock(image, bs, lbas[k]).Ok?;
      AuditIsExact(ReadBlock(image, bs, lbas[k]).value, lbas[k]);
      assert !Passes(image, bs, lbas[k]);
    }
  }

  /** The auditor's list of addresses, for a sequence in range: the reader's, between anchor and File Set Descriptor. */
  lemma AuditedAsRead(image: seq<byte>, st: UdfState)
    requires StateOf(image) == Ok(Some(st)) && SequenceInRange(image, st)
    ensures AuditedLbas(image, st) ==
      Ok([ANCHOR] + ReaderWalk(image, st.blockSize, st.vdsLoc, 0, st.vdsLenSectors).value + [st.fsdLba])
  {
    ParsedSectors(image, st);
    WalksAgreeExactly(image, st);
  }

  /**
   * The auditor's addresses for any parsed state: anchor, File Set Descriptor, and what the reader
   * looked at within `u32`.
   */
  lemma AuditedAddresses(image: seq<byte>, st: UdfState)
    requires StateOf(image) == Ok(Some(st))
    ensures IsBlockSize(st.blockSize)
    ensures ReaderWalk(image, st.blockSize, st.vdsLoc, 0, st.vdsLenSectors).Ok? && AuditedLbas(image, st).Ok?
    ensures forall y: U32 :: y in AuditedLbas(image, st).value <==>
      y == ANCHOR || y == st.fsdLba || y in ReaderWalk(image, st.blockSize, st.vdsLoc, 0, st.vdsLenSectors).value
  {
    ParsedSectors(image, st);
    InterpretedAreWalked(image, st.blockSize, st.vdsLoc, 0, st.vdsLenSectors);
    AuditCoversRead(image, st.blockSize, st.vdsLoc, 0, st.vdsLenSectors);
  }

  /**
   * The bootstrap audit of a parsed state has no tag findings exactly when
   * anchor, File Set Descriptor and every block of the sequence the reader
   * looked at within `u32` pass.
   */
  lemma CleanAuditExactly(image: seq<byte>, st: UdfState)
    requires StateOf(image) == Ok(Some(st))
    ensures IsBlockSize(st.blockSize)
    ensures ReaderWalk(image, st.blockSize, st.vdsLoc, 0, st.vdsLenSectors).Ok? && AuditedLbas(image, st).Ok?
    ensures NoTagAnomaly(FlatMap<U32, Anomaly>(TagAudit(image, st.blockSize), AuditedLbas(image, st).value)) <==>
      && Passes(image, st.blockSize, ANCHOR) && Passes(image, st.blockSize, st.fsdLba)
      && forall y: U32 :: y in ReaderWalk(image, st.blockSize, st.vdsLoc, 0, st.vdsLenSectors).value ==>
        Passes(image, st.blockSize, y)
  {
    AuditedAddresses(image, st);
    CleanExactlyWhenSound(image, st.blockSize, AuditedLbas(image, st).value);
  }

  /** A readable block with this tag. */
  predicate BlockTagged(image: seq<byte>, bs: nat, lba: nat, tag: U16) {
    ReadBlock(image, bs, lba).Ok? && TagIdent(ReadBlock(image, bs, lba).value) == tag
  }

  lemma PassingIsSound(image: seq<byte>, st: UdfState, walk: seq<nat>)
    requires IsBlockSize(st.blockSize)
    requires BlockTagged(image, st.blockSize, ANCHOR, TAG_AVDP) && BlockTagged(image, st.blockSize, st.fsdLba, TAG_FSD)
    requires Passes(image, st.blockSize, ANCHOR) && Passes(image, st.blockSize, st.fsdLba)
    requires forall y: U32 :: y in walk ==> Passes(image, st.blockSize, y)
    requires forall k :: 0 <= k < |walk| ==> walk[k] == st.vdsLoc + k
    requires var sectors := Interpreted(image, st.blockSize, st.vdsLoc, 0, st.vdsLenSectors);
      sectors.Ok? && Collect(NOTHING, sectors.value).volume.Some? && |sectors.value| <= |walk| &&
      forall k :: 0 <= k < |sectors.value| ==> ReadBlock(image, st.blockSize, walk[k]) == Ok(sectors.value[k])
    ensures SoundUpTo(image, st, U32_MAX)
    ensures st.vdsLoc + |walk| <= U32_MAX + 1 ==> StateIsSound(image, st)
  {
    var sectors := Interpreted(image, st.blockSize, st.vdsLoc, 0, st.vdsLenSectors).value;
    forall k | 0 <= k < |sectors| && st.vdsLoc + k <= U32_MAX && Determining(sectors[k])
      ensures Sound(sectors[k])
    {
      assert walk[k] in walk;
    }
  }

  /**
   * A bootstrap audit without tag findings vouches for every descriptor that
   * determined the state and lies within `u32`; that is all of them unless the
   * sequence runs past the top.
   */
  lemma CleanAuditVouches(image: seq<byte>, st: UdfState)
    requires StateOf(image) == Ok(Some(st))
    ensures IsBlockSize(st.blockSize)
    ensures AuditedLbas(image, st).Ok?
    ensures NoTagAnomaly(FlatMap<U32, Anomaly>(TagAudit(image, st.blockSize), AuditedLbas(image, st).value)) ==>
      SoundUpTo(image, st, U32_MAX) && (SequenceInRange(image, st) ==> StateIsSound(image, st))
  {
    CleanAuditExactly(image, st);
    ParsedSectors(image, st);
    InterpretedAreWalked(image, st.blockSize, st.vdsLoc, 0, st.vdsLenSectors);
    WalkIsConsecutive(image, st.blockSize, st.vdsLoc, 0, st.vdsLenSectors);
    if NoTagAnomaly(FlatMap<U32, Anomaly>(TagAudit(image, st.blockSize), AuditedLbas(image, st).value)) {
      PassingIsSound(image, st, ReaderWalk(image, st.blockSize, st.vdsLoc, 0, st.vdsLenSectors).value);
    }
  }
}
