/** The whole audit of an image: bootstrap, then the directory tree. */
module Analyze {
  import opened Bytes
  import opened Lists
  import opened Tags
  import opened FileEntry
  import opened Volume
  import opened Bootstrap
  import Timestamps
  import opened Walk

  function PlaceOf(image: seq<byte>, st: UdfState): Place {
    Place(image, st.blockSize, st.partitionStart)
  }

  function RecordingTime(image: seq<byte>, bs: nat, fsdLba: nat): Result<Option<string>>
    requires IsBlockSize(bs)
  {
    match ReadBlock(image, bs, fsdLba)
    case Err(e) => Err(e)
    case Ok(s) => if TagIdent(s) != TAG_FSD then Ok(None) else Ok(Timestamps.DecodeTimestamp(s[16..28]))
  }

  /** The findings of an audit that walks the directories in this order. */
  function Findings(image: seq<byte>, st: UdfState, volumeTime: Option<string>, dirs: seq<U32>): seq<Anomaly>
    requires IsBlockSize(st.blockSize) && AuditedLbas(image, st).Ok?
  {
    var p := PlaceOf(image, st);
    FlatMap<U32, Anomaly>(TagAudit(image, st.blockSize), AuditedLbas(image, st).value)
    + TreeFindings(p, volumeTime, dirs)
  }

  /** The blocks of the directory walk that carry a recognised descriptor are sound. */
  predicate TreeIsSound(p: Place, lbas: seq<U32>) {
    forall y :: y in lbas && BlockReadable(p, y) && Recognised(ReadBlock(p.image, p.bs, y).value) ==>
      Sound(ReadBlock(p.image, p.bs, y).value)
  }

  /** `found` is the audit of a parsed volume in some order of its reachable directories. */
  ghost predicate IsAudit(image: seq<byte>, st: UdfState, dirs: seq<U32>, found: seq<Anomaly>) {
    && IsBlockSize(st.blockSize) && AuditedLbas(image, st).Ok? && RecordingTime(image, st.blockSize, st.fsdLba).Ok?
    && CoversTree(PlaceOf(image, st), st.rootFeLba, dirs)
    && IsWalk(PlaceOf(image, st), RecordingTime(image, st.blockSize, st.fsdLba).value, dirs,
         FlatMap<U32, U32>(Trail(PlaceOf(image, st)), dirs),
         FlatMap<U32, Anomaly>(TagAudit(image, st.blockSize), AuditedLbas(image, st).value), found)
  }

  /** A block the audit has to read cannot be read. */
  ghost predicate CutShort(image: seq<byte>, st: UdfState)
    requires IsBlockSize(st.blockSize)
  {
    AuditedLbas(image, st).Err? || HasBrokenNode(PlaceOf(image, st), st.rootFeLba)
  }

  lemma Prefixless<A>(s: seq<A>)
    ensures [] + s == s
  {
  }

  method AuditVolume(image: seq<byte>, st: UdfState, out: Report) returns (r: Result<()>, ghost dirs: seq<U32>)
    requires IsBlockSize(st.blockSize) && out.found == []
    modifies out
    ensures r.Ok? ==> IsAudit(image, st, dirs, out.found)
    ensures r.Ok? <==> !CutShort(image, st)
  {
    dirs := [];
    r := AuditBootstrapTags(image, st, out);
    if r.Err? {
      return;
    }
    ghost var first := FlatMap<U32, Anomaly>(TagAudit(image, st.blockSize), AuditedLbas(image, st).value);
    Prefixless(first);
    var volumeTime := RecordingTime(image, st.blockSize, st.fsdLba);
    if volumeTime.Err? {
      assert false; // the bootstrap audit has read that block
    }
    ghost var lbas;
    r, dirs, lbas := WalkDirectoryTree(PlaceOf(image, st), st.rootFeLba, volumeTime.value, out);
  }

  method AnalyzeImage(image: seq<byte>) returns (r: Result<seq<Anomaly>>, ghost dirs: seq<U32>)
    ensures StateOf(image) == Ok(None) ==> r == Ok([])
    ensures StateOf(image).Err? ==> r == Err(StateOf(image).error)
    ensures StateOf(image).Ok? && StateOf(image).value.Some? ==>
      var st := StateOf(image).value.value;
      IsBlockSize(st.blockSize) && (r.Ok? <==> !CutShort(image, st)) && (r.Ok? ==> IsAudit(image, st, dirs, r.value))
  {
    dirs := [];
    var parsed := ParseUdfStateChecked(image);
    if parsed.Err? {
      return Err(parsed.error), dirs;
    }
    if parsed.value.None? {
      return Ok([]), dirs;
    }
    var out := new Report();
    var audit: Result<()>;
    audit, dirs := AuditVolume(image, parsed.value.value, out);
    if audit.Err? {
      return Err(audit.error), dirs;
    }
    return Ok(out.found), dirs;
  }

  lemma PartsClean(a: seq<Anomaly>, b: seq<Anomaly>)
    requires NoTagAnomaly(a + b)
    ensures NoTagAnomaly(a) && NoTagAnomaly(b)
  {
    assert forall x :: x in a ==> x in a + b;
    assert forall x :: x in b ==> x in a + b;
  }

  /** A File Entry's audit holds its tag audit. */
  lemma TagPartOfAudit(p: Place, volumeTime: Option<string>, y: U32, a: Anomaly)
    requires ValidPlace(p) && BlockReadable(p, y) && a in TagAudit(p.image, p.bs)(y)
    ensures a in FileAudit(p, volumeTime)(y)
  {
  }

  lemma SoundInWalk(p: Place, volumeTime: Option<string>, lbas: seq<U32>, y: U32)
    requires ValidPlace(p) && y in lbas && BlockReadable(p, y)
    requires NoTagAnomaly(FlatMap<U32, Anomaly>(FileAudit(p, volumeTime), lbas))
    ensures Recognised(ReadBlock(p.image, p.bs, y).value) ==> Sound(ReadBlock(p.image, p.bs, y).value)
  {
    var s := ReadBlock(p.image, p.bs, y).value;
    var found := TagFindings(s, y);
    var k :| 0 <= k < |lbas| && lbas[k] == y;
    assert TagAudit(p.image, p.bs)(y) == found;
    if found != [] {
      assert found[0] in found;
      TagPartOfAudit(p, volumeTime, y, found[0]);
      FlatMapMember<U32, Anomaly>(FileAudit(p, volumeTime), lbas, k, found[0]);
      OnlyTagFindings(s, y);
    }
    AuditIsExact(s, y);
  }

  /**
   * An analysis without tag findings vouches for every descriptor within
   * `u32` that determined the state and for every recognised one the directory
   * walk met.
   */
  lemma CleanAnalysisVouches(image: seq<byte>, st: UdfState, volumeTime: Option<string>, dirs: seq<U32>)
    requires StateOf(image) == Ok(Some(st))
    ensures IsBlockSize(st.blockSize) && AuditedLbas(image, st).Ok?
    ensures NoTagAnomaly(Findings(image, st, volumeTime, dirs)) ==>
      SoundUpTo(image, st, U32_MAX) && (SequenceInRange(image, st) ==> StateIsSound(image, st)) &&
        TreeIsSound(PlaceOf(image, st), FlatMap<U32, U32>(Trail(PlaceOf(image, st)), dirs))
  {
    CleanAuditVouches(image, st);
    var p := PlaceOf(image, st);
    var audit := FileAudit(p, volumeTime);
    var lbas := FlatMap<U32, U32>(Trail(p), dirs);
    if NoTagAnomaly(Findings(image, st, volumeTime, dirs)) {
      var first := FlatMap<U32, Anomaly>(TagAudit(image, st.blockSize), AuditedLbas(image, st).value);
      PartsClean(first, FlatMap<U32, Anomaly>(audit, lbas));
      forall y | y in lbas && BlockReadable(p, y) && Recognised(ReadBlock(p.image, p.bs, y).value)
        ensures Sound(ReadBlock(p.image, p.bs, y).value)
      {
        SoundInWalk(p, volumeTime, lbas, y);
      }
    }
  }

  // ----- what is reported about a file -----

  lemma BootstrapReportsTags(image: seq<byte>, bs: nat, lbas: seq<U32>)
    requires bs >= 16
    ensures forall a :: a in FlatMap<U32, Anomaly>(TagAudit(image, bs), lbas) ==> IsTagAnomaly(a)
  {
    forall a | a in FlatMap<U32, Anomaly>(TagAudit(image, bs), lbas)
      ensures IsTagAnomaly(a)
    {
      var k := FlatMapSource<U32, Anomaly>(TagAudit(image, bs), lbas, a);
      if ReadBlock(image, bs, lbas[k]).Ok? {
        OnlyTagFindings(ReadBlock(image, bs, lbas[k]).value, lbas[k]);
      }
    }
  }

  /** Tag findings in front change nothing about the files. */
  lemma ReportsInParts(a: seq<Anomaly>, b: seq<Anomaly>, y: U32)
    requires forall x :: x in a ==> IsTagAnomaly(x)
    ensures ReportsLate(a + b, y) <==> ReportsLate(b, y)
    ensures ReportsSlack(a + b, y) <==> ReportsSlack(b, y)
  {
    assert forall x :: x in a + b <==> x in a || x in b;
  }

  /** An analysis reports files that are nodes of the tree, and what their own audit reports. */
  lemma AnalysisReports(image: seq<byte>, st: UdfState, dirs: seq<U32>, found: seq<Anomaly>, y: U32)
    requires IsAudit(image, st, dirs, found)
    ensures var p, time := PlaceOf(image, st), RecordingTime(image, st.blockSize, st.fsdLba).value;
      && (ReportsLate(found, y) <==> IsNode(p, st.rootFeLba, y) && ReportsLate(FileAudit(p, time)(y), y))
      && (ReportsSlack(found, y) <==> IsNode(p, st.rootFeLba, y) && ReportsSlack(FileAudit(p, time)(y), y))
  {
    var p, time := PlaceOf(image, st), RecordingTime(image, st.blockSize, st.fsdLba).value;
    var boot := FlatMap<U32, Anomaly>(TagAudit(image, st.blockSize), AuditedLbas(image, st).value);
    var lbas := FlatMap<U32, U32>(Trail(p), dirs);
    var tree := FlatMap<U32, Anomaly>(FileAudit(p, time), lbas);
    BootstrapReportsTags(image, st.blockSize, AuditedLbas(image, st).value);
    NodesAreTrails(p, st.rootFeLba, dirs, y);
    WalkReports(p, time, lbas, y);
    ReportsInParts(boot, tree, y);
  }

  /** The volume's time stands at 16 of the File Set Descriptor. */
  lemma VolumeTime(image: seq<byte>, st: UdfState)
    requires StateOf(image) == Ok(Some(st))
    ensures IsBlockSize(st.blockSize) && ReadBlock(image, st.blockSize, st.fsdLba).Ok?
    ensures RecordingTime(image, st.blockSize, st.fsdLba) ==
      Ok(Timestamps.DecodeTimestamp(ReadBlock(image, st.blockSize, st.fsdLba).value[16..28]))
  {
    ParsedSectors(image, st);
  }

  /**
   * An analysis reports a file as late exactly when it is a node of the tree, a
   * File Entry, and its recorded local time, to the second, is later than that
   * of the File Set Descriptor: for a node of the tree, if and only if the
   * digits of the two times allow.
   */
  lemma AnalysisReportsLate(image: seq<byte>, st: UdfState, dirs: seq<U32>, found: seq<Anomaly>, y: U32)
    requires StateOf(image) == Ok(Some(st)) && IsAudit(image, st, dirs, found)
    ensures ReadBlock(image, st.blockSize, st.fsdLba).Ok?
    ensures LateMeansLate(PlaceOf(image, st), st.rootFeLba, found, y,
      ReadBlock(image, st.blockSize, st.fsdLba).value[16..28])
  {
    VolumeTime(image, st);
    var volume := ReadBlock(image, st.blockSize, st.fsdLba).value[16..28];
    AnalysisReports(image, st, dirs, found, y);
    LateInTree(PlaceOf(image, st), st.rootFeLba, found, y, volume);
  }

  /**
   * For a file that ends in its last block, an analysis reports slack exactly
   * when it is a node of the tree and a nonzero byte stands between its data
   * and the end of that block.
   */
  lemma AnalysisReportsSlack(image: seq<byte>, st: UdfState, dirs: seq<U32>, found: seq<Anomaly>, y: U32, e: Entry)
    requires IsAudit(image, st, dirs, found) && HasSlackRegion(PlaceOf(image, st), y, e)
    ensures SlackMeansResidue(PlaceOf(image, st), st.rootFeLba, found, y, e)
  {
    var time := RecordingTime(image, st.blockSize, st.fsdLba).value;
    AnalysisReports(image, st, dirs, found, y);
    SlackInTree(PlaceOf(image, st), st.rootFeLba, found, time, y, e);
  }
}
