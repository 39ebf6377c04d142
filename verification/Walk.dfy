/** The directory walk of the audit: a stack and a visited set over a graph that may have cycles. */
module Walk {
  import opened Bytes
  import opened Graph
  import opened Lists
  import opened Tags
  import opened FileEntry
  import Slack
  import opened Fids
  import opened Timestamps

  // ----- one File Entry -----

  /** The modification time; an Extended File Entry holds it 8 bytes later. */
  function ModificationTime(s: seq<byte>): Option<string> {
    var off := if TagIdent(s) == TAG_EFE then 92 else 84;
    if off + 12 <= |s| then DecodeTimestamp(s[off..off + 12]) else None
  }

  function TimeFindings(s: seq<byte>, feLba: U32, volumeTime: Option<string>): seq<Anomaly> {
    var mtime := ModificationTime(s);
    if volumeTime.Some? && mtime.Some? && Before(volumeTime.value, mtime.value)
    then [FileAfterVolume(feLba, mtime.value, volumeTime.value)] else []
  }

  /**
   * A file is reported as later than the volume exactly when its recorded local
   * time, to the second, is later than the volume's, as far as the digits of
   * the two times of day allow.
   */
  lemma LateFileIsReported(s: seq<byte>, feLba: U32, volume: seq<byte>)
    requires |s| >= 104
    ensures var at := if TagIdent(s) == TAG_EFE then 92 else 84;
      var recorded, modified := StampOf(volume), StampOf(s[at..at + 12]);
      var later := recorded.Some? && modified.Some? && Earlier(recorded.value, modified.value);
      (TimeFindings(s, feLba, DecodeTimestamp(volume)) != [] <==> later) <==>
        (recorded.Some? && modified.Some? ==> SortsByTime(recorded.value, modified.value))
  {
    var at := if TagIdent(s) == TAG_EFE then 92 else 84;
    var recorded, modified := StampOf(volume), StampOf(s[at..at + 12]);
    if recorded.Some? && modified.Some? {
      TextOrderIsTimeOrder(recorded.value, modified.value);
    }
  }

  function SlackFindings(p: Place, feLba: U32): seq<Anomaly>
    requires ValidPlace(p)
  {
    var count := Slack.SlackOf(p, feLba);
    if count.Some? && count.value.nonzero > 0
    then [SlackData(feLba, count.value.nonzero, count.value.slack)] else []
  }

  /** Slack is reported exactly when something is left behind the data, in the block the data ends in. */
  lemma SlackIsReported(p: Place, feLba: U32, e: Entry)
    requires ValidPlace(p) && EntryAt(p, feLba) == Some(e) && InExtents(e) && e.infoLen > 0
    requires Slack.EndsInLastBlock(ExtentsOf(e), e.infoLen, p.bs) && FeData(p, feLba).Some?
    ensures e.infoLen <= Recording(ExtentsOf(e))
    ensures var last := AllPositions(p, ExtentsOf(e))[e.infoLen - 1];
      SlackFindings(p, feLba) != [] <==> Slack.Residue(p.image, last + 1, Slack.BlockEnd(last, p.bs))
  {
    Slack.SlackIsResidue(p, feLba, e);
  }

  /** What the audit of one File Entry reports; nothing where no block can be read. */
  function FileAudit(p: Place, volumeTime: Option<string>): U32 -> seq<Anomaly>
    requires ValidPlace(p)
  {
    (feLba: U32) =>
      var read := ReadBlock(p.image, p.bs, feLba);
      if read.Err? then []
      else if !IsFileEntry(read.value) then TagAudit(p.image, p.bs)(feLba)
      else TagAudit(p.image, p.bs)(feLba) + (TimeFindings(read.value, feLba, volumeTime) + SlackFindings(p, feLba))
  }

  predicate BlockReadable(p: Place, lba: U32) {
    ReadBlock(p.image, p.bs, lba).Ok?
  }

  method AuditFileEntry(p: Place, feLba: U32, volumeTime: Option<string>, out: Report) returns (r: Result<()>)
    requires ValidPlace(p)
    modifies out
    ensures r.Ok? <==> BlockReadable(p, feLba)
    ensures r.Ok? ==> out.found == old(out.found) + FileAudit(p, volumeTime)(feLba)
  {
    var tag := AuditTagAt(p.image, p.bs, feLba, out);
    if tag.Err? {
      return Err(tag.error);
    }
    var read := ReadBlock(p.image, p.bs, feLba);
    var sector := read.value;
    if !IsFileEntry(sector) {
      return Ok(());
    }
    ghost var tagged := out.found;
    var mtime := ModificationTime(sector);
    if volumeTime.Some? && mtime.Some? && Before(volumeTime.value, mtime.value) {
      out.found := out.found + [FileAfterVolume(feLba, mtime.value, volumeTime.value)];
    }
    assert out.found == tagged + TimeFindings(sector, feLba, volumeTime);
    ghost var timed := out.found;
    var count := Slack.FeSlackNonzero(p, feLba);
    if count.Some? && count.value.nonzero > 0 {
      out.found := out.found + [SlackData(feLba, count.value.nonzero, count.value.slack)];
    }
    assert out.found == timed + SlackFindings(p, feLba);
    Regroup4(old(out.found), TagAudit(p.image, p.bs)(feLba), TimeFindings(sector, feLba, volumeTime),
      SlackFindings(p, feLba));
    Regroup(TagAudit(p.image, p.bs)(feLba), TimeFindings(sector, feLba, volumeTime), SlackFindings(p, feLba));
    return Ok(());
  }

  // ----- what the audit of a file reports -----

  predicate ReportsLate(found: seq<Anomaly>, y: U32) {
    exists a :: a in found && a.FileAfterVolume? && a.lba == y
  }

  predicate ReportsSlack(found: seq<Anomaly>, y: U32) {
    exists a :: a in found && a.SlackData? && a.lba == y
  }

  /** The twelve bytes of the modification time of a File Entry. */
  function ModifiedAt(s: seq<byte>): seq<byte>
    requires |s| >= 104
  {
    if Le16(s, 0) == 266 then s[92..104] else s[84..96]
  }

  /** The two readable times, when there are both. */
  predicate BothTimes(p: Place, y: U32, volume: seq<byte>) {
    var read := ReadBlock(p.image, p.bs, y);
    && read.Ok? && (Le16(read.value, 0) == 260 || Le16(read.value, 0) == 261 || Le16(read.value, 0) == 266)
    && |read.value| >= 104
    && StampOf(volume).Some? && StampOf(ModifiedAt(read.value)).Some?
  }

  /** The file was modified after the volume was recorded, by local time to the second. */
  predicate IsLate(p: Place, y: U32, volume: seq<byte>) {
    BothTimes(p, y, volume) &&
    Earlier(StampOf(volume).value, StampOf(ModifiedAt(ReadBlock(p.image, p.bs, y).value)).value)
  }

  predicate SortsRight(p: Place, y: U32, volume: seq<byte>) {
    BothTimes(p, y, volume) ==>
      SortsByTime(StampOf(volume).value, StampOf(ModifiedAt(ReadBlock(p.image, p.bs, y).value)).value)
  }

  lemma OnlyTags(s: seq<byte>, lba: U32)
    requires |s| >= 16
    ensures forall a :: a in TagFindings(s, lba) ==> IsTagAnomaly(a)
  {
  }

  /** Neither time nor slack is in a list of tag findings. */
  lemma TagsReportNeither(tags: seq<Anomaly>, y: U32)
    requires forall a :: a in tags ==> IsTagAnomaly(a)
    ensures !ReportsLate(tags, y) && !ReportsSlack(tags, y)
  {
  }

  lemma ReportsOfThree(tags: seq<Anomaly>, times: seq<Anomaly>, slack: seq<Anomaly>, y: U32)
    requires forall a :: a in tags ==> IsTagAnomaly(a)
    requires forall a :: a in times ==> a.FileAfterVolume? && a.lba == y
    requires forall a :: a in slack ==> a.SlackData? && a.lba == y
    ensures var found := tags + (times + slack);
      && (forall a :: a in found && !IsTagAnomaly(a) ==> a.lba == y)
      && (ReportsLate(found, y) <==> times != [])
      && (ReportsSlack(found, y) <==> slack != [])
  {
    var found := tags + (times + slack);
    assert forall a :: a in found <==> a in tags || a in times || a in slack;
    if times != [] {
      assert times[0] in found;
    }
    if slack != [] {
      assert slack[0] in found;
    }
  }

  /** An audit speaks of its own address; times and slack are its only findings beside the tags'. */
  lemma PartsOfAudit(p: Place, volumeTime: Option<string>, y: U32)
    requires ValidPlace(p)
    ensures var found, read := FileAudit(p, volumeTime)(y), ReadBlock(p.image, p.bs, y);
      && (forall a :: a in found && !IsTagAnomaly(a) ==> a.lba == y)
      && (ReportsLate(found, y) <==>
            read.Ok? && IsFileEntry(read.value) && TimeFindings(read.value, y, volumeTime) != [])
      && (ReportsSlack(found, y) <==> read.Ok? && IsFileEntry(read.value) && SlackFindings(p, y) != [])
  {
    var read := ReadBlock(p.image, p.bs, y);
    if read.Ok? {
      var tags := TagFindings(read.value, y);
      OnlyTags(read.value, y);
      assert TagAudit(p.image, p.bs)(y) == tags;
      if IsFileEntry(read.value) {
        ReportsOfThree(tags, TimeFindings(read.value, y, volumeTime), SlackFindings(p, y), y);
      } else {
        TagsReportNeither(tags, y);
      }
    }
  }

  /** A file is reported as late exactly when it is, if and only if the digits of the times allow. */
  lemma LateIsReported(p: Place, y: U32, volume: seq<byte>)
    requires ValidPlace(p)
    ensures (ReportsLate(FileAudit(p, DecodeTimestamp(volume))(y), y) <==> IsLate(p, y, volume)) <==>
      SortsRight(p, y, volume)
  {
    PartsOfAudit(p, DecodeTimestamp(volume), y);
    var read := ReadBlock(p.image, p.bs, y);
    if read.Ok? {
      LateFileIsReported(read.value, y, volume);
    }
  }

  /** A readable file in extents that ends in its last block. */
  predicate HasSlackRegion(p: Place, y: U32, e: Entry)
    requires ValidPlace(p)
  {
    && EntryAt(p, y) == Some(e) && InExtents(e) && e.infoLen > 0
    && Slack.EndsInLastBlock(ExtentsOf(e), e.infoLen, p.bs) && FeData(p, y).Some?
  }

  /** Its slack is reported exactly when a nonzero byte stands behind its data, in the block the data ends in. */
  lemma ResidueIsReported(p: Place, volumeTime: Option<string>, y: U32, e: Entry)
    requires ValidPlace(p) && HasSlackRegion(p, y, e)
    ensures e.infoLen <= Recording(ExtentsOf(e))
    ensures var last := AllPositions(p, ExtentsOf(e))[e.infoLen - 1];
      ReportsSlack(FileAudit(p, volumeTime)(y), y) <==> Slack.Residue(p.image, last + 1, Slack.BlockEnd(last, p.bs))
  {
    PartsOfAudit(p, volumeTime, y);
    SlackIsReported(p, y, e);
  }

  /** What is said about a late file and about slack: the two times, and the counts. */
  lemma FindingsSay(p: Place, volumeTime: Option<string>, y: U32, a: Anomaly)
    requires ValidPlace(p) && a in FileAudit(p, volumeTime)(y)
    ensures a.FileAfterVolume? ==>
      ReadBlock(p.image, p.bs, y).Ok? && volumeTime == Some(a.volumeTime) &&
      DecodeTimestamp(ModifiedAt(ReadBlock(p.image, p.bs, y).value)) == Some(a.fileTime)
    ensures a.SlackData? ==> Slack.SlackOf(p, y) == Some(Slack.SlackCount(a.nonzeroBytes, a.slackBytes))
  {
    var read := ReadBlock(p.image, p.bs, y);
    OnlyTags(read.value, y);
    assert TagAudit(p.image, p.bs)(y) == TagFindings(read.value, y);
  }

  /** A list of audits reports a file exactly when it holds that file's audit and that reports it. */
  lemma WalkReports(p: Place, volumeTime: Option<string>, lbas: seq<U32>, y: U32)
    requires ValidPlace(p)
    ensures var f := FileAudit(p, volumeTime);
      && (ReportsLate(FlatMap<U32, Anomaly>(f, lbas), y) <==> y in lbas && ReportsLate(f(y), y))
      && (ReportsSlack(FlatMap<U32, Anomaly>(f, lbas), y) <==> y in lbas && ReportsSlack(f(y), y))
  {
    var f := FileAudit(p, volumeTime);
    forall a | a in FlatMap<U32, Anomaly>(f, lbas) && !IsTagAnomaly(a) && a.lba == y
      ensures y in lbas && a in f(y)
    {
      var k := FlatMapSource<U32, Anomaly>(f, lbas, a);
      PartsOfAudit(p, volumeTime, lbas[k]);
    }
    if y in lbas {
      var k :| 0 <= k < |lbas| && lbas[k] == y;
      forall a | a in f(y)
        ensures a in FlatMap<U32, Anomaly>(f, lbas)
      {
        FlatMapMember<U32, Anomaly>(f, lbas, k, a);
      }
    }
  }

  // ----- the directory graph -----

  function ReadDirAt(p: Place, feLba: U32): Option<seq<DirEntry>>
    requires ValidPlace(p)
  {
    var data := FeData(p, feLba);
    if data.None? then None else Some(Children(p, data.value))
  }

  method ReadDirAtLba(p: Place, feLba: U32) returns (r: Option<seq<DirEntry>>)
    requires ValidPlace(p)
    ensures r == ReadDirAt(p, feLba)
  {
    var data := ReadFeData(p, feLba);
    if data.None? {
      return None;
    }
    var entries := ParseFids(p, data.value);
    return Some(entries);
  }

  /** The addresses of the children that are directories, or that are not, in order and with repetitions. */
  function Pick(es: seq<DirEntry>, dirs: bool): (lbas: seq<U32>) {
    if es == [] then []
    else Pick(es[..|es| - 1], dirs) + if es[|es| - 1].isDir == dirs then [es[|es| - 1].feLba] else []
  }

  function SubDirs(p: Place, dir: U32): seq<U32>
    requires ValidPlace(p)
  {
    var es := ReadDirAt(p, dir);
    if es.None? then [] else Pick(es.value, true)
  }

  function Files(p: Place, dir: U32): seq<U32>
    requires ValidPlace(p)
  {
    var es := ReadDirAt(p, dir);
    if es.None? then [] else Pick(es.value, false)
  }

  function SubDirsOf(p: Place): Edges
    requires ValidPlace(p)
  {
    (dir: U32) => SubDirs(p, dir)
  }

  // ----- the tree, as the image lists it -----

  /** Directory `d` lists a child at `y` of this kind. */
  predicate HasChild(p: Place, d: U32, y: U32, isDir: bool)
    requires ValidPlace(p)
  {
    var es := ReadDirAt(p, d);
    es.Some? && exists i :: 0 <= i < |es.value| && es.value[i].isDir == isDir && es.value[i].feLba == y
  }

  /** Each directory of the path lists the next one as a directory. */
  predicate IsDirectoryPath(p: Place, root: U32, path: seq<U32>, y: U32)
    requires ValidPlace(p)
  {
    if path == [] then y == root
    else IsDirectoryPath(p, root, path[..|path| - 1], path[|path| - 1]) && HasChild(p, path[|path| - 1], y, true)
  }

  ghost predicate InTree(p: Place, root: U32, d: U32)
    requires ValidPlace(p)
  {
    exists path :: IsDirectoryPath(p, root, path, d)
  }

  /** A directory of the tree, or a file that one lists. */
  ghost predicate IsNode(p: Place, root: U32, y: U32)
    requires ValidPlace(p)
  {
    exists d :: InTree(p, root, d) && (y == d || HasChild(p, d, y, false))
  }

  /** How often a directory lists `y` as a file. */
  function Occurrences(p: Place, d: U32, y: U32): nat
    requires ValidPlace(p)
  {
    var es := ReadDirAt(p, d);
    if es.None? then 0 else |set i: nat | i < |es.value| && !es.value[i].isDir && es.value[i].feLba == y|
  }

  function OccurrencesIn(p: Place, dirs: seq<U32>, y: U32): nat
    requires ValidPlace(p)
  {
    if dirs == [] then 0
    else OccurrencesIn(p, dirs[..|dirs| - 1], y) + Occurrences(p, dirs[|dirs| - 1], y)
  }

  /** Each directory once, and each file once for every time it is listed. */
  ghost predicate IsCensus(p: Place, dirs: seq<U32>, lbas: seq<U32>)
    requires ValidPlace(p)
  {
    forall y: U32 :: multiset(lbas)[y] == (if y in dirs then 1 else 0) + OccurrencesIn(p, dirs, y)
  }

  lemma {:induction false} PickIs(es: seq<DirEntry>, dirs: bool, y: U32)
    ensures y in Pick(es, dirs) <==> exists i :: 0 <= i < |es| && es[i].isDir == dirs && es[i].feLba == y
  {
    if es != [] {
      var n := |es| - 1;
      PickIs(es[..n], dirs, y);
      assert es == es[..n] + [es[n]];
      if y in Pick(es[..n], dirs) {
        var i :| 0 <= i < n && es[..n][i].isDir == dirs && es[..n][i].feLba == y;
        assert es[i].isDir == dirs && es[i].feLba == y;
      }
    }
  }

  lemma PlacesNext(es: seq<DirEntry>, y: U32)
    requires es != []
    ensures var n := |es| - 1;
      |set i: nat | i < |es| && !es[i].isDir && es[i].feLba == y| ==
        |set i: nat | i < n && !es[..n][i].isDir && es[..n][i].feLba == y|
        + if !es[n].isDir && es[n].feLba == y then 1 else 0
  {
    var n := |es| - 1;
    var all := set i: nat | i < |es| && !es[i].isDir && es[i].feLba == y;
    var init := set i: nat | i < n && !es[..n][i].isDir && es[..n][i].feLba == y;
    assert all == if !es[n].isDir && es[n].feLba == y then init + {n} else init;
  }

  /** The files picked are counted by their places in the listing. */
  lemma {:induction false} PickCounts(es: seq<DirEntry>, y: U32)
    ensures multiset(Pick(es, false))[y] == |set i: nat | i < |es| && !es[i].isDir && es[i].feLba == y|
  {
    var places := set i: nat | i < |es| && !es[i].isDir && es[i].feLba == y;
    if es == [] {
      assert places == {};
    } else {
      var n := |es| - 1;
      PickCounts(es[..n], y);
      PlacesNext(es, y);
    }
  }

  /** The edges of the graph that is walked are the listings of the image. */
  lemma EdgesAreListed(p: Place, d: U32, y: U32)
    requires ValidPlace(p)
    ensures y in SubDirsOf(p)(d) <==> HasChild(p, d, y, true)
  {
    if ReadDirAt(p, d).Some? {
      PickIs(ReadDirAt(p, d).value, true, y);
    }
  }

  lemma {:induction false} PathsAgree(p: Place, root: U32, path: seq<U32>, y: U32)
    requires ValidPlace(p)
    ensures IsDirectoryPath(p, root, path, y) <==> IsPath(SubDirsOf(p), root, path, y)
    decreases |path|
  {
    if path != [] {
      var n := |path| - 1;
      PathsAgree(p, root, path[..n], path[n]);
      EdgesAreListed(p, path[n], y);
    }
  }

  lemma TreeIsReachable(p: Place, root: U32, d: U32)
    requires ValidPlace(p)
    ensures InTree(p, root, d) <==> Reachable(SubDirsOf(p), root, d)
  {
    if InTree(p, root, d) {
      var path :| IsDirectoryPath(p, root, path, d);
      PathsAgree(p, root, path, d);
    }
    if Reachable(SubDirsOf(p), root, d) {
      var path :| IsPath(SubDirsOf(p), root, path, d);
      PathsAgree(p, root, path, d);
    }
  }

  // ----- the walk -----

  /** What the audit of one directory looks at: its own File Entry, then each file it lists. */
  function Trail(p: Place): U32 -> seq<U32>
    requires ValidPlace(p)
  {
    (dir: U32) => [dir] + Files(p, dir)
  }

  /** A directory's trail is the directory, and each file once for every time it lists it. */
  lemma TrailIs(p: Place, d: U32, y: U32)
    requires ValidPlace(p)
    ensures multiset(Trail(p)(d))[y] == (if y == d then 1 else 0) + Occurrences(p, d, y)
    ensures y in Trail(p)(d) <==> y == d || HasChild(p, d, y, false)
  {
    assert multiset([d] + Files(p, d)) == multiset([d]) + multiset(Files(p, d));
    if ReadDirAt(p, d).Some? {
      PickCounts(ReadDirAt(p, d).value, y);
      PickIs(ReadDirAt(p, d).value, false, y);
    }
  }

  lemma TrailsNext(p: Place, dirs: seq<U32>, y: U32)
    requires ValidPlace(p) && dirs != []
    ensures var n := |dirs| - 1;
      multiset(FlatMap<U32, U32>(Trail(p), dirs))[y] ==
        multiset(FlatMap<U32, U32>(Trail(p), dirs[..n]))[y]
        + (if y == dirs[n] then 1 else 0) + Occurrences(p, dirs[n], y)
  {
    TrailIs(p, dirs[|dirs| - 1], y);
  }

  lemma LastOnce(dirs: seq<U32>, y: U32)
    requires dirs != [] && NoDuplicates(dirs)
    ensures var n := |dirs| - 1;
      NoDuplicates(dirs[..n]) &&
      (if y in dirs then 1 else 0) == (if y in dirs[..n] then 1 else 0) + (if y == dirs[n] then 1 else 0)
  {
    var n := |dirs| - 1;
    assert dirs == dirs[..n] + [dirs[n]];
    assert dirs[n] !in dirs[..n];
  }

  lemma {:induction false} TrailsAre(p: Place, dirs: seq<U32>, y: U32)
    requires ValidPlace(p) && NoDuplicates(dirs)
    ensures multiset(FlatMap<U32, U32>(Trail(p), dirs))[y] == (if y in dirs then 1 else 0) + OccurrencesIn(p, dirs, y)
    decreases |dirs|
  {
    if dirs != [] {
      var n := |dirs| - 1;
      TrailsAre(p, dirs[..n], y);
      LastOnce(dirs, y);
      TrailsNext(p, dirs, y);
    }
  }

  lemma TrailsAreCensus(p: Place, dirs: seq<U32>)
    requires ValidPlace(p) && NoDuplicates(dirs)
    ensures IsCensus(p, dirs, FlatMap<U32, U32>(Trail(p), dirs))
  {
    forall y: U32
      ensures multiset(FlatMap<U32, U32>(Trail(p), dirs))[y] ==
        (if y in dirs then 1 else 0) + OccurrencesIn(p, dirs, y)
    {
      TrailsAre(p, dirs, y);
    }
  }

  predicate AllReadable(p: Place, lbas: seq<U32>) {
    forall y :: y in lbas ==> BlockReadable(p, y)
  }

  lemma ReadableConcat(p: Place, a: seq<U32>, b: seq<U32>)
    requires AllReadable(p, a) && AllReadable(p, b)
    ensures AllReadable(p, a + b)
  {
  }

  lemma {:induction false} PickPrefix(es: seq<DirEntry>, dirs: bool, i: nat)
    requires i < |es|
    ensures es[i].isDir == dirs ==> es[i].feLba in Pick(es, dirs)
    decreases |es|
  {
    var n := |es| - 1;
    if i < n {
      PickPrefix(es[..n], dirs, i);
    }
  }

  lemma PickNext(es: seq<DirEntry>, i: nat)
    requires i < |es|
    ensures Pick(es[..i + 1], true) == if es[i].isDir then Pick(es[..i], true) + [es[i].feLba] else Pick(es[..i], true)
    ensures Pick(es[..i + 1], false) == if es[i].isDir then Pick(es[..i], false)
      else Pick(es[..i], false) + [es[i].feLba]
  {
    assert es[..i + 1][..i] == es[..i] && es[..i + 1][i] == es[i];
  }

  /** The children of one directory: files are audited, directories are queued. */
  method AuditChildren(p: Place, es: seq<DirEntry>, volumeTime: Option<string>, below: seq<U32>, out: Report)
    returns (r: Result<()>, queue: seq<U32>)
    requires ValidPlace(p)
    modifies out
    ensures r.Ok? ==> queue == below + Pick(es, true)
    ensures r.Ok? ==> AllReadable(p, Pick(es, false))
    ensures r.Ok? ==> out.found == old(out.found) + FlatMap<U32, Anomaly>(FileAudit(p, volumeTime), Pick(es, false))
    ensures r.Err? ==> exists y :: y in Pick(es, false) && !BlockReadable(p, y)
  {
    ghost var audit := FileAudit(p, volumeTime);
    queue := below;
    for i := 0 to |es|
      invariant queue == below + Pick(es[..i], true)
      invariant AllReadable(p, Pick(es[..i], false))
      invariant out.found == old(out.found) + FlatMap<U32, Anomaly>(audit, Pick(es[..i], false))
    {
      PickNext(es, i);
      if es[i].isDir {
        Regroup(below, Pick(es[..i], true), [es[i].feLba]);
        queue := queue + [es[i].feLba];
      } else {
        var file := AuditFileEntry(p, es[i].feLba, volumeTime, out);
        if file.Err? {
          PickPrefix(es, false, i);
          return Err(file.error), queue;
        }
        FlatMapSnoc<U32, Anomaly>(audit, Pick(es[..i], false), es[i].feLba);
        Regroup(old(out.found), FlatMap<U32, Anomaly>(audit, Pick(es[..i], false)), audit(es[i].feLba));
      }
    }
    assert es[..|es|] == es;
    return Ok(()), queue;
  }

  /** One directory: its own File Entry, then its children. */
  method AuditDirectory(p: Place, dir: U32, volumeTime: Option<string>, below: seq<U32>, out: Report)
    returns (r: Result<()>, queue: seq<U32>)
    requires ValidPlace(p)
    modifies out
    ensures r.Ok? ==> queue == below + SubDirs(p, dir)
    ensures r.Ok? ==> AllReadable(p, Trail(p)(dir))
    ensures r.Ok? ==> out.found == old(out.found) + FlatMap<U32, Anomaly>(FileAudit(p, volumeTime), Trail(p)(dir))
    ensures r.Err? ==> exists y :: y in Trail(p)(dir) && !BlockReadable(p, y)
  {
    ghost var audit := FileAudit(p, volumeTime);
    r := AuditFileEntry(p, dir, volumeTime, out);
    if r.Err? {
      assert Trail(p)(dir)[0] == dir;
      return r, below;
    }
    var children := ReadDirAtLba(p, dir);
    if children.None? {
      FlatMapOne<U32, Anomaly>(audit, dir);
      assert below + [] == below && [dir] + [] == [dir];
      return Ok(()), below;
    }
    r, queue := AuditChildren(p, children.value, volumeTime, below, out);
    ghost var files := Pick(children.value, false);
    assert Files(p, dir) == files;
    FlatMapOne<U32, Anomaly>(audit, dir);
    FlatMapConcat<U32, Anomaly>(audit, [dir], files);
    Regroup(old(out.found), audit(dir), FlatMap<U32, Anomaly>(audit, files));
  }

  lemma ExtendTrail<B>(trail: U32 -> seq<U32>, audit: U32 -> seq<B>, dirs: seq<U32>, dir: U32, base: seq<B>)
    ensures FlatMap<U32, U32>(trail, dirs + [dir]) == FlatMap<U32, U32>(trail, dirs) + trail(dir)
    ensures base + FlatMap<U32, B>(audit, FlatMap<U32, U32>(trail, dirs + [dir])) ==
      base + FlatMap<U32, B>(audit, FlatMap<U32, U32>(trail, dirs)) + FlatMap<U32, B>(audit, trail(dir))
  {
    FlatMapSnoc<U32, U32>(trail, dirs, dir);
    FlatMapConcat<U32, B>(audit, FlatMap<U32, U32>(trail, dirs), trail(dir));
    Regroup(base, FlatMap<U32, B>(audit, FlatMap<U32, U32>(trail, dirs)), FlatMap<U32, B>(audit, trail(dir)));
  }

  /** `dirs` enumerates the directories of the tree. */
  ghost predicate CoversTree(p: Place, root: U32, dirs: seq<U32>)
    requires ValidPlace(p)
  {
    NoDuplicates(dirs) && forall d :: d in dirs <==> InTree(p, root, d)
  }

  /** A directory of the tree, or a file that one lists, cannot be read. */
  ghost predicate HasBrokenNode(p: Place, root: U32)
    requires ValidPlace(p)
  {
    exists y :: IsNode(p, root, y) && !BlockReadable(p, y)
  }

  lemma CoveredTree(p: Place, root: U32, dirs: seq<U32>)
    requires ValidPlace(p) && NoDuplicates(dirs) && forall d :: d in dirs <==> Reachable(SubDirsOf(p), root, d)
    ensures CoversTree(p, root, dirs)
  {
    forall d: U32
      ensures d in dirs <==> InTree(p, root, d)
    {
      TreeIsReachable(p, root, d);
    }
  }

  lemma NodesAreTrails(p: Place, root: U32, dirs: seq<U32>, y: U32)
    requires ValidPlace(p) && CoversTree(p, root, dirs)
    ensures IsNode(p, root, y) <==> y in FlatMap<U32, U32>(Trail(p), dirs)
  {
    if IsNode(p, root, y) {
      var d :| InTree(p, root, d) && (y == d || HasChild(p, d, y, false));
      TrailIs(p, d, y);
      var k :| 0 <= k < |dirs| && dirs[k] == d;
      FlatMapMember<U32, U32>(Trail(p), dirs, k, y);
    }
    if y in FlatMap<U32, U32>(Trail(p), dirs) {
      var k := FlatMapSource<U32, U32>(Trail(p), dirs, y);
      TrailIs(p, dirs[k], y);
      assert InTree(p, root, dirs[k]);
    }
  }

  lemma NoBrokenNode(p: Place, root: U32, dirs: seq<U32>)
    requires ValidPlace(p) && CoversTree(p, root, dirs) && AllReadable(p, FlatMap<U32, U32>(Trail(p), dirs))
    ensures !HasBrokenNode(p, root)
  {
    forall y | IsNode(p, root, y)
      ensures BlockReadable(p, y)
    {
      NodesAreTrails(p, root, dirs, y);
    }
  }

  function TreeFindings(p: Place, volumeTime: Option<string>, dirs: seq<U32>): seq<Anomaly>
    requires ValidPlace(p)
  {
    FlatMap<U32, Anomaly>(FileAudit(p, volumeTime), FlatMap<U32, U32>(Trail(p), dirs))
  }

  /** The addresses `lbas` are audited one after the other: each directory once, each file as often as it is listed. */
  ghost predicate IsWalk(p: Place, volumeTime: Option<string>, dirs: seq<U32>, lbas: seq<U32>, base: seq<Anomaly>,
                         found: seq<Anomaly>)
    requires ValidPlace(p)
  {
    && IsCensus(p, dirs, lbas) && lbas == FlatMap<U32, U32>(Trail(p), dirs) && AllReadable(p, lbas)
    && found == base + FlatMap<U32, Anomaly>(FileAudit(p, volumeTime), lbas)
  }

  /** Where the walk stands: the directories in `dirs` are dealt with, and what they gave is found. */
  ghost predicate WalkedSoFar(p: Place, root: U32, volumeTime: Option<string>, queue: seq<U32>, visited: set<U32>,
                              dirs: seq<U32>, base: seq<Anomaly>, found: seq<Anomaly>)
    requires ValidPlace(p)
  {
    && Walking(SubDirsOf(p), root, queue, visited, dirs)
    && |visited| <= 0x1_0000_0000
    && AllReadable(p, FlatMap<U32, U32>(Trail(p), dirs))
    && found == base + TreeFindings(p, volumeTime, dirs)
  }

  lemma WalkStarts(p: Place, root: U32, volumeTime: Option<string>, base: seq<Anomaly>)
    requires ValidPlace(p)
    ensures WalkedSoFar(p, root, volumeTime, [root], {}, [], base, base)
  {
    StartWalk(SubDirsOf(p), root);
    assert base + [] == base;
  }

  lemma WalkSkips(p: Place, root: U32, volumeTime: Option<string>, queue: seq<U32>, visited: set<U32>,
                  dirs: seq<U32>, base: seq<Anomaly>, found: seq<Anomaly>)
    requires ValidPlace(p) && WalkedSoFar(p, root, volumeTime, queue, visited, dirs, base, found)
    requires queue != [] && queue[|queue| - 1] in visited
    ensures WalkedSoFar(p, root, volumeTime, queue[..|queue| - 1], visited, dirs, base, found)
  {
    SkipVisited(SubDirsOf(p), root, queue, visited, dirs);
  }

  lemma WalkVisits(p: Place, root: U32, volumeTime: Option<string>, queue: seq<U32>, visited: set<U32>,
                   dirs: seq<U32>, base: seq<Anomaly>, found: seq<Anomaly>)
    requires ValidPlace(p) && WalkedSoFar(p, root, volumeTime, queue, visited, dirs, base, found)
    requires queue != [] && queue[|queue| - 1] !in visited && AllReadable(p, Trail(p)(queue[|queue| - 1]))
    ensures var dir, below := queue[|queue| - 1], queue[..|queue| - 1];
      |visited| < |visited + {dir}| <= 0x1_0000_0000 &&
      WalkedSoFar(p, root, volumeTime, below + SubDirs(p, dir), visited + {dir}, dirs + [dir], base,
        found + FlatMap<U32, Anomaly>(FileAudit(p, volumeTime), Trail(p)(dir)))
  {
    var dir := queue[|queue| - 1];
    BoundedSet(visited + {dir}, 0x1_0000_0000);
    VisitOne(SubDirsOf(p), root, queue, visited, dirs);
    ExtendTrail<Anomaly>(Trail(p), FileAudit(p, volumeTime), dirs, dir, base);
    ReadableConcat(p, FlatMap<U32, U32>(Trail(p), dirs), Trail(p)(dir));
  }

  lemma WalkBreaks(p: Place, root: U32, queue: seq<U32>, visited: set<U32>, dirs: seq<U32>)
    requires ValidPlace(p) && queue != [] && Walking(SubDirsOf(p), root, queue, visited, dirs)
    requires exists y :: y in Trail(p)(queue[|queue| - 1]) && !BlockReadable(p, y)
    ensures HasBrokenNode(p, root)
  {
    var d := queue[|queue| - 1];
    var y :| y in Trail(p)(d) && !BlockReadable(p, y);
    QueuedReachable(SubDirsOf(p), root, queue, visited, dirs);
    TreeIsReachable(p, root, d);
    TrailIs(p, d, y);
    assert IsNode(p, root, y);
  }

  method WalkDirectoryTree(p: Place, root: U32, volumeTime: Option<string>, out: Report)
    returns (r: Result<()>, ghost dirs: seq<U32>, ghost lbas: seq<U32>)
    requires ValidPlace(p)
    modifies out
    ensures r.Ok? <==> !HasBrokenNode(p, root)
    ensures r.Ok? ==> CoversTree(p, root, dirs)
    ensures r.Ok? ==> IsWalk(p, volumeTime, dirs, lbas, old(out.found), out.found)
  {
    var queue := [root];
    var visited: set<U32> := {};
    dirs, lbas := [], [];
    WalkStarts(p, root, volumeTime, out.found);
    while queue != []
      invariant WalkedSoFar(p, root, volumeTime, queue, visited, dirs, old(out.found), out.found)
      decreases 0x1_0000_0000 - |visited|, |queue|
    {
      var dir := queue[|queue| - 1];
      var below := queue[..|queue| - 1];
      if dir in visited {
        WalkSkips(p, root, volumeTime, queue, visited, dirs, old(out.found), out.found);
        queue := below;
        continue;
      }
      ghost var found := out.found;
      r, below := AuditDirectory(p, dir, volumeTime, below, out);
      if r.Err? {
        WalkBreaks(p, root, queue, visited, dirs);
        return r, dirs, lbas;
      }
      WalkVisits(p, root, volumeTime, queue, visited, dirs, old(out.found), found);
      visited, queue, dirs := visited + {dir}, below, dirs + [dir];
    }
    AllVisited(SubDirsOf(p), root, visited, dirs);
    CoveredTree(p, root, dirs);
    NoBrokenNode(p, root, dirs);
    TrailsAreCensus(p, dirs);
    return Ok(()), dirs, FlatMap<U32, U32>(Trail(p), dirs);
  }

  // ----- what the findings of a whole tree say -----

  /** A file is reported as late exactly when it is a node of the tree and late, if and only if its digits allow. */
  ghost predicate LateMeansLate(p: Place, root: U32, found: seq<Anomaly>, y: U32, volume: seq<byte>)
    requires ValidPlace(p)
  {
    (ReportsLate(found, y) <==> IsNode(p, root, y) && IsLate(p, y, volume)) <==>
      (IsNode(p, root, y) ==> SortsRight(p, y, volume))
  }

  lemma LateInTree(p: Place, root: U32, found: seq<Anomaly>, y: U32, volume: seq<byte>)
    requires ValidPlace(p)
    requires ReportsLate(found, y) <==>
      IsNode(p, root, y) && ReportsLate(FileAudit(p, DecodeTimestamp(volume))(y), y)
    ensures LateMeansLate(p, root, found, y, volume)
  {
    LateIsReported(p, y, volume);
  }

  /** Its slack is reported exactly when it is a node of the tree and has a nonzero byte behind its data. */
  ghost predicate SlackMeansResidue(p: Place, root: U32, found: seq<Anomaly>, y: U32, e: Entry)
    requires ValidPlace(p)
  {
    && InExtents(e) && 0 < e.infoLen <= Recording(ExtentsOf(e))
    && var last := AllPositions(p, ExtentsOf(e))[e.infoLen - 1];
       ReportsSlack(found, y) <==>
         IsNode(p, root, y) && Slack.Residue(p.image, last + 1, Slack.BlockEnd(last, p.bs))
  }

  lemma SlackInTree(p: Place, root: U32, found: seq<Anomaly>, volumeTime: Option<string>, y: U32, e: Entry)
    requires ValidPlace(p) && HasSlackRegion(p, y, e)
    requires ReportsSlack(found, y) <==> IsNode(p, root, y) && ReportsSlack(FileAudit(p, volumeTime)(y), y)
    ensures SlackMeansResidue(p, root, found, y, e)
  {
    ResidueIsReported(p, volumeTime, y, e);
  }

  /**
   * The order of the walk does not matter: any two enumerations of the
   * reachable directories look at the same addresses, each as often, and
   * report the same findings.
   */
  lemma WalkOrderIrrelevant(p: Place, volumeTime: Option<string>, dirs1: seq<U32>, dirs2: seq<U32>)
    requires ValidPlace(p) && NoDuplicates(dirs1) && NoDuplicates(dirs2) && SameElements(dirs1, dirs2)
    ensures multiset(FlatMap<U32, U32>(Trail(p), dirs1)) == multiset(FlatMap<U32, U32>(Trail(p), dirs2))
    ensures multiset(TreeFindings(p, volumeTime, dirs1)) == multiset(TreeFindings(p, volumeTime, dirs2))
  {
    var trail, audit := Trail(p), FileAudit(p, volumeTime);
    FlatMapPermutation<U32, U32>(trail, dirs1, dirs2);
    FlatMapMultiset<U32, Anomaly>(audit, FlatMap<U32, U32>(trail, dirs1), FlatMap<U32, U32>(trail, dirs2));
  }
}
