/**
 * The 16-byte descriptor tag (ECMA-167 part 3, section 7.2) and its audit:
 * the checksum over the tag, the CRC over the descriptor's body.
 */
module Tags {
  import opened Bytes
  import Lists
  import Crc
  import Gf2

  const TAG_AVDP: U16 := 2
  const TAG_PD: U16 := 5
  const TAG_LVD: U16 := 6
  const TAG_TERM: U16 := 8
  const TAG_FSD: U16 := 256
  const TAG_FID: U16 := 257
  const TAG_FE: U16 := 260
  const TAG_FE_ALT: U16 := 261
  const TAG_EFE: U16 := 266

  /** The descriptor kinds the audit names. */
  datatype Descriptor =
    | AVDP
    | PartitionDescriptor
    | LogicalVolumeDescriptor
    | TerminatingDescriptor
    | FileSetDescriptor
    | FileIdentifierDescriptor
    | FileEntry
    | ExtendedFileEntry
    | PrimaryVolumeDescriptor
    | VolumeDescriptorPointer
    | ImplementationUseVolumeDescriptor
    | UnallocatedSpaceDescriptor
    | LogicalVolumeIntegrityDescriptor
    | AllocationExtentDescriptor
    | IndirectEntry
    | SpaceBitmapDescriptor
    | PartitionIntegrityEntry
    | ExtendedAttributeHeaderDescriptor
    | UnallocatedSpaceEntry

  datatype Anomaly =
    | TagChecksumBad(descriptor: Descriptor, lba: U32, storedSum: byte, computedSum: byte)
    | TagCrcMismatch(descriptor: Descriptor, lba: U32, stored: U16, computed: U16)
    | FileAfterVolume(lba: U32, fileTime: string, volumeTime: string)
    | SlackData(lba: U32, nonzeroBytes: nat, slackBytes: nat)

  /** The findings list every audit step appends to. */
  class Report {
    var found: seq<Anomaly>

    constructor ()
      ensures found == []
    {
      found := [];
    }
  }

  /** The descriptor kinds that are audited. */
  function DescriptorLabel(tag: U16): Option<Descriptor> {
    if tag == TAG_AVDP then Some(AVDP)
    else if tag == TAG_PD then Some(PartitionDescriptor)
    else if tag == TAG_LVD then Some(LogicalVolumeDescriptor)
    else if tag == TAG_TERM then Some(TerminatingDescriptor)
    else if tag == TAG_FSD then Some(FileSetDescriptor)
    else if tag == TAG_FID then Some(FileIdentifierDescriptor)
    else if tag == TAG_FE || tag == TAG_FE_ALT then Some(FileEntry)
    else if tag == TAG_EFE then Some(ExtendedFileEntry)
    else if tag == 1 then Some(PrimaryVolumeDescriptor)
    else if tag == 3 then Some(VolumeDescriptorPointer)
    else if tag == 4 then Some(ImplementationUseVolumeDescriptor)
    else if tag == 7 then Some(UnallocatedSpaceDescriptor)
    else if tag == 9 then Some(LogicalVolumeIntegrityDescriptor)
    else if tag == 258 then Some(AllocationExtentDescriptor)
    else if tag == 259 then Some(IndirectEntry)
    else if tag == 262 then Some(SpaceBitmapDescriptor)
    else if tag == 263 then Some(PartitionIntegrityEntry)
    else if tag == 264 then Some(ExtendedAttributeHeaderDescriptor)
    else if tag == 265 then Some(UnallocatedSpaceEntry)
    else None
  }

  // ----- checksum -----

  function ByteSum(s: seq<byte>): nat {
    if s == [] then 0 else ByteSum(s[..|s| - 1]) + s[|s| - 1]
  }

  /** The mod-256 sum of the tag's bytes, the checksum byte left out. */
  function ChecksumOf(tag: seq<byte>): byte
    requires |tag| >= 16
  {
    (ByteSum(tag[..16]) - tag[4]) % 0x100
  }

  method TagChecksum(tag: seq<byte>) returns (sum: byte)
    requires |tag| >= 16
    ensures sum == ChecksumOf(tag)
  {
    var total: int := 0;
    for i := 0 to 16
      invariant total == ByteSum(tag[..i]) - if i > 4 then tag[4] else 0
      invariant 0 <= total <= 255 * i
    {
      assert tag[..i + 1][..i] == tag[..i];
      if i != 4 {
        total := total + tag[i];
      }
    }
    sum := total % 0x100;
  }

  lemma {:induction false} ByteSumUpdate(s: seq<byte>, i: nat, b: byte)
    requires i < |s|
    ensures ByteSum(s[i := b]) == ByteSum(s) - s[i] + b
  {
    var n := |s| - 1;
    if i < n {
      assert s[i := b][..n] == s[..n][i := b];
      ByteSumUpdate(s[..n], i, b);
    } else {
      assert s[i := b][..n] == s[..n];
    }
  }

  // ----- fields and their validity -----

  function TagIdent(s: seq<byte>): U16 {
    Le16(s, 0)
  }

  function CrcLength(s: seq<byte>): U16 {
    Le16(s, 10)
  }

  function StoredCrc(s: seq<byte>): U16 {
    Le16(s, 8)
  }

  predicate Recognised(s: seq<byte>) {
    DescriptorLabel(TagIdent(s)).Some?
  }

  predicate ChecksumValid(s: seq<byte>)
    requires |s| >= 16
  {
    s[4] == ChecksumOf(s)
  }

  predicate SpanFits(s: seq<byte>) {
    16 + CrcLength(s) <= |s|
  }

  /** The bytes the CRC covers. */
  function Body(s: seq<byte>): seq<byte>
    requires SpanFits(s)
  {
    s[16..16 + CrcLength(s)]
  }

  predicate CrcValid(s: seq<byte>)
    requires SpanFits(s)
  {
    StoredCrc(s) == Crc.CrcOf(Body(s))
  }

  // ----- the audit -----

  function ChecksumFindings(s: seq<byte>, named: Descriptor, lba: U32): seq<Anomaly>
    requires |s| >= 16
  {
    if ChecksumValid(s) then [] else [TagChecksumBad(named, lba, s[4], ChecksumOf(s))]
  }

  function CrcFindings(s: seq<byte>, named: Descriptor, lba: U32): seq<Anomaly> {
    if !SpanFits(s) || CrcValid(s) then [] else [TagCrcMismatch(named, lba, StoredCrc(s), Crc.CrcOf(Body(s)))]
  }

  /** What the audit of one descriptor reports. */
  function TagFindings(s: seq<byte>, lba: U32): seq<Anomaly>
    requires |s| >= 16
  {
    var named := DescriptorLabel(TagIdent(s));
    if named.None? then [] else ChecksumFindings(s, named.value, lba) + CrcFindings(s, named.value, lba)
  }

  /** The audit of the descriptor at an address; nothing where no block can be read. */
  function TagAudit(image: seq<byte>, bs: nat): U32 -> seq<Anomaly>
    requires bs >= 16
  {
    (lba: U32) =>
      var read := ReadBlock(image, bs, lba);
      if read.Ok? then TagFindings(read.value, lba) else []
  }

  method AuditChecksum(sector: seq<byte>, named: Descriptor, lba: U32, out: Report)
    requires |sector| >= 16
    modifies out
    ensures out.found == old(out.found) + ChecksumFindings(sector, named, lba)
  {
    var stored := sector[4];
    var computed := TagChecksum(sector[..16]);
    assert sector[..16][..16] == sector[..16];
    if stored != computed {
      out.found := out.found + [TagChecksumBad(named, lba, stored, computed)];
    }
  }

  method AuditCrc(sector: seq<byte>, named: Descriptor, lba: U32, out: Report)
    requires |sector| >= 16
    modifies out
    ensures out.found == old(out.found) + CrcFindings(sector, named, lba)
  {
    var stored := Le16(sector, 8);
    var bodyEnd := 16 + Le16(sector, 10);
    if bodyEnd <= |sector| {
      var computed := Crc.Ecma167Crc(sector[16..bodyEnd]);
      if stored != computed {
        out.found := out.found + [TagCrcMismatch(named, lba, stored, computed)];
      }
    }
  }

  method AuditTagAt(image: seq<byte>, bs: nat, lba: U32, out: Report) returns (r: Result<U16>)
    requires IsBlockSize(bs)
    modifies out
    ensures r.Ok? <==> ReadBlock(image, bs, lba).Ok?
    ensures r.Err? ==> out.found == old(out.found) && r.error == UnexpectedEof
    ensures r.Ok? ==> r.value == TagIdent(ReadBlock(image, bs, lba).value)
    ensures r.Ok? ==> out.found == old(out.found) + TagAudit(image, bs)(lba)
  {
    var read := ReadBlock(image, bs, lba);
    if read.Err? {
      return Err(read.error);
    }
    var sector := read.value;
    var tag := Le16(sector, 0);
    if tag == 0 {
      return Ok(0);
    }
    var named := DescriptorLabel(tag);
    if named.None? {
      return Ok(tag);
    }

    ghost var before := out.found;
    AuditChecksum(sector, named.value, lba, out);
    AuditCrc(sector, named.value, lba, out);
    Lists.Regroup(before, ChecksumFindings(sector, named.value, lba), CrcFindings(sector, named.value, lba));
    return Ok(tag);
  }

  predicate IsTagAnomaly(a: Anomaly) {
    a.TagChecksumBad? || a.TagCrcMismatch?
  }

  predicate ReportsChecksum(found: seq<Anomaly>) {
    exists a :: a in found && a.TagChecksumBad?
  }

  predicate ReportsCrc(found: seq<Anomaly>) {
    exists a :: a in found && a.TagCrcMismatch?
  }

  /** The audit reports a checksum, or a CRC, exactly when that field is wrong. */
  lemma AuditIsExact(s: seq<byte>, lba: U32)
    requires |s| >= 16
    ensures ReportsChecksum(TagFindings(s, lba)) <==> Recognised(s) && !ChecksumValid(s)
    ensures ReportsCrc(TagFindings(s, lba)) <==> Recognised(s) && SpanFits(s) && !CrcValid(s)
    ensures TagFindings(s, lba) == [] <==>
      (Recognised(s) ==> ChecksumValid(s) && (SpanFits(s) ==> CrcValid(s)))
  {
    var found := TagFindings(s, lba);
    if Recognised(s) && !ChecksumValid(s) {
      assert found[0].TagChecksumBad?;
    }
    if Recognised(s) && SpanFits(s) && !CrcValid(s) {
      assert found[|found| - 1].TagCrcMismatch?;
    }
  }

  // ----- stamping a tag -----

  /** Overwrite the bytes from `off`. */
  function Overwrite(s: seq<byte>, off: nat, field: seq<byte>): (t: seq<byte>)
    requires off + |field| <= |s|
    ensures |t| == |s| && t[off..off + |field|] == field
    ensures t[..off] == s[..off] && t[off + |field|..] == s[off + |field|..]
  {
    s[..off] + field + s[off + |field|..]
  }

  /** Everything of a stamp but the checksum: identifier, version, location, body CRC and its length. */
  function StampFields(s: seq<byte>, tag: U16, location: U32, crcLen: U16): (t: seq<byte>)
    requires 16 + crcLen <= |s|
    ensures |t| == |s|
  {
    var identified := Overwrite(Overwrite(Overwrite(s, 0, Put16(tag)), 2, Put16(0x0102)), 12, Put32(location));
    Overwrite(Overwrite(identified, 8, Put16(Crc.CrcOf(s[16..16 + crcLen]))), 10, Put16(crcLen))
  }

  function StampTag(s: seq<byte>, tag: U16, location: U32, crcLen: U16): (t: seq<byte>)
    requires 16 + crcLen <= |s|
    ensures |t| == |s|
  {
    var t := StampFields(s, tag, location, crcLen);
    Overwrite(t, 4, [ChecksumOf(t)])
  }

  /** Overwriting leaves the fields beside the overwritten bytes, and what lies past them. */
  lemma OverwriteElsewhere(s: seq<byte>, off: nat, field: seq<byte>, at: nat)
    requires off + |field| <= |s| && at + 2 <= |s|
    requires at + 2 <= off || off + |field| <= at
    ensures Le16(Overwrite(s, off, field), at) == Le16(s, at)
  {
  }

  lemma OverwriteHere(s: seq<byte>, off: nat, v: U16)
    requires off + 2 <= |s|
    ensures Le16(Overwrite(s, off, Put16(v)), off) == v
  {
    SameFields(Overwrite(s, off, Put16(v)), off, Put16(v), 0, 2, 0);
  }

  lemma OverwriteTail(s: seq<byte>, off: nat, field: seq<byte>, from: nat)
    requires off + |field| <= from <= |s|
    ensures Overwrite(s, off, field)[from..] == s[from..]
  {
  }

  lemma StampedFields(s: seq<byte>, tag: U16, location: U32, crcLen: U16)
    requires 16 + crcLen <= |s|
    ensures var t := StampFields(s, tag, location, crcLen);
      TagIdent(t) == tag && CrcLength(t) == crcLen && StoredCrc(t) == Crc.CrcOf(s[16..16 + crcLen]) &&
        t[16..] == s[16..]
  {
    var crc := Crc.CrcOf(s[16..16 + crcLen]);
    var t0 := Overwrite(s, 0, Put16(tag));
    var t1 := Overwrite(t0, 2, Put16(0x0102));
    var t2 := Overwrite(t1, 12, Put32(location));
    var t3 := Overwrite(t2, 8, Put16(crc));
    var t4 := Overwrite(t3, 10, Put16(crcLen));
    assert TagIdent(t4) == tag by {
      OverwriteHere(s, 0, tag);
      OverwriteElsewhere(t0, 2, Put16(0x0102), 0);
      OverwriteElsewhere(t1, 12, Put32(location), 0);
      OverwriteElsewhere(t2, 8, Put16(crc), 0);
      OverwriteElsewhere(t3, 10, Put16(crcLen), 0);
    }
    assert StoredCrc(t4) == crc by {
      OverwriteHere(t2, 8, crc);
      OverwriteElsewhere(t3, 10, Put16(crcLen), 8);
    }
    assert CrcLength(t4) == crcLen by {
      OverwriteHere(t3, 10, crcLen);
    }
    assert t4[16..] == s[16..] by {
      OverwriteTail(s, 0, Put16(tag), 16);
      OverwriteTail(t0, 2, Put16(0x0102), 16);
      OverwriteTail(t1, 12, Put32(location), 16);
      OverwriteTail(t2, 8, Put16(crc), 16);
      OverwriteTail(t3, 10, Put16(crcLen), 16);
    }
  }

  /** The checksum byte does not enter the checksum. */
  lemma ChecksumIgnoresItself(s: seq<byte>, b: byte)
    requires |s| >= 16
    ensures ChecksumOf(s[4 := b]) == ChecksumOf(s)
  {
    assert s[4 := b][..16] == s[..16][4 := b];
    ByteSumUpdate(s[..16], 4, b);
  }

  /** A stamped descriptor passes the audit, whatever its body. */
  lemma StampedIsClean(s: seq<byte>, tag: U16, location: U32, crcLen: U16, lba: U32)
    requires 16 + crcLen <= |s|
    ensures TagFindings(StampTag(s, tag, location, crcLen), lba) == []
  {
    var summed := StampFields(s, tag, location, crcLen);
    var sum := ChecksumOf(summed);
    var t := Overwrite(summed, 4, [sum]);
    StampedFields(s, tag, location, crcLen);
    OverwriteElsewhere(summed, 4, [sum], 0);
    OverwriteElsewhere(summed, 4, [sum], 8);
    OverwriteElsewhere(summed, 4, [sum], 10);
    OverwriteTail(summed, 4, [sum], 16);
    assert Body(t) == t[16..][..crcLen];
    assert s[16..16 + crcLen] == s[16..][..crcLen];
    assert t == summed[4 := sum];
    ChecksumIgnoresItself(summed, sum);
  }

  // ----- what the audit detects -----

  lemma DifferentModulo(a: int, d: int)
    requires -0x100 < d < 0x100 && d != 0
    ensures (a + d) % 0x100 != a % 0x100
  {
  }

  /**
   * Changing one tag byte of a descriptor with a valid checksum is reported
   * as a bad checksum exactly when the identifier stays recognised.
   */
  lemma ChecksumDetectsByte(s: seq<byte>, i: nat, b: byte, lba: U32)
    requires |s| >= 16 && ChecksumValid(s)
    requires i < 16 && b != s[i]
    ensures ReportsChecksum(TagFindings(s[i := b], lba)) <==> Recognised(s[i := b])
  {
    var t := s[i := b];
    AuditIsExact(t, lba);
    assert t[..16] == s[..16][i := b];
    ByteSumUpdate(s[..16], i, b);
    if i == 4 {
      ChecksumIgnoresItself(s, b);
    } else {
      DifferentModulo(ByteSum(s[..16]) - s[4], b as int - s[i] as int);
    }
  }

  /** Two descriptors with one tag, whose CRC span fits and matches the first. */
  predicate BodyEdited(s: seq<byte>, t: seq<byte>) {
    && 16 <= |s| == |t|
    && s[..16] == t[..16]
    && Recognised(s) && SpanFits(s) && CrcValid(s)
  }

  lemma SameTag(s: seq<byte>, t: seq<byte>)
    requires BodyEdited(s, t)
    ensures Recognised(t) && SpanFits(t) && CrcLength(t) == CrcLength(s) && StoredCrc(t) == StoredCrc(s)
  {
    SameFields(s, 0, t, 0, 16, 0);
    SameFields(s, 0, t, 0, 16, 8);
    SameFields(s, 0, t, 0, 16, 10);
  }

  /** An edited body goes unreported exactly when the generator divides the edit. */
  lemma CrcReportedUnlessMultiple(s: seq<byte>, t: seq<byte>, lba: U32)
    requires BodyEdited(s, t)
    ensures SpanFits(t) && |Body(s)| == |Body(t)|
    ensures ReportsCrc(TagFindings(t, lba)) <==>
      !Gf2.IsRemainder(Crc.MessageBits(Crc.XorBytes(Body(s), Body(t))), Crc.GENERATOR, Crc.CLEAR)
  {
    SameTag(s, t);
    AuditIsExact(t, lba);
    Crc.CrcCollision(Body(s), Body(t));
  }

  /** An edit confined to 16 consecutive bits of the covered body is reported. */
  lemma BurstIsReported(s: seq<byte>, t: seq<byte>, at: nat, lba: U32)
    requires BodyEdited(s, t) && SpanFits(t) && |Body(s)| == |Body(t)| && Body(s) != Body(t)
    requires forall i :: 0 <= i < 8 * |Body(s)| && !(at <= i < at + 16) ==>
      Crc.MessageBits(Body(s))[i] == Crc.MessageBits(Body(t))[i]
    ensures ReportsCrc(TagFindings(t, lba))
  {
    SameTag(s, t);
    AuditIsExact(t, lba);
    Crc.CrcDetectsBurst(Body(s), Body(t), at);
  }

  /** An odd number of flipped body bits is reported. */
  lemma OddFlipsAreReported(s: seq<byte>, t: seq<byte>, lba: U32)
    requires BodyEdited(s, t) && SpanFits(t) && |Body(s)| == |Body(t)|
    requires Gf2.Parity(Crc.MessageBits(Crc.XorBytes(Body(s), Body(t))))
    ensures ReportsCrc(TagFindings(t, lba))
  {
    SameTag(s, t);
    AuditIsExact(t, lba);
    Crc.CrcDetectsOddFlips(Body(s), Body(t));
  }

  // ----- identifiers by number -----

  /** The recognised identifiers are 1 to 9 and 256 to 266, each with its own name. */
  lemma RecognisedNumbers(s: seq<byte>)
    ensures Recognised(s) <==> 1 <= Le16(s, 0) <= 9 || 256 <= Le16(s, 0) <= 266
  {
  }

  lemma Names()
    ensures DescriptorLabel(1) == Some(PrimaryVolumeDescriptor) && DescriptorLabel(2) == Some(AVDP)
    ensures DescriptorLabel(3) == Some(VolumeDescriptorPointer)
    ensures DescriptorLabel(4) == Some(ImplementationUseVolumeDescriptor)
    ensures DescriptorLabel(5) == Some(PartitionDescriptor) && DescriptorLabel(6) == Some(LogicalVolumeDescriptor)
    ensures DescriptorLabel(7) == Some(UnallocatedSpaceDescriptor) && DescriptorLabel(8) == Some(TerminatingDescriptor)
    ensures DescriptorLabel(9) == Some(LogicalVolumeIntegrityDescriptor) &&
      DescriptorLabel(256) == Some(FileSetDescriptor)
    ensures DescriptorLabel(257) == Some(FileIdentifierDescriptor)
    ensures DescriptorLabel(258) == Some(AllocationExtentDescriptor) && DescriptorLabel(259) == Some(IndirectEntry)
    ensures DescriptorLabel(260) == DescriptorLabel(261) == Some(FileEntry)
    ensures DescriptorLabel(262) == Some(SpaceBitmapDescriptor) && DescriptorLabel(263) == Some(PartitionIntegrityEntry)
    ensures DescriptorLabel(264) == Some(ExtendedAttributeHeaderDescriptor)
    ensures DescriptorLabel(265) == Some(UnallocatedSpaceEntry) && DescriptorLabel(266) == Some(ExtendedFileEntry)
  {
  }

  /** A finding names its descriptor and address, what is stored and what was computed. */
  lemma FindingsName(s: seq<byte>, lba: U32, a: Anomaly)
    requires |s| >= 16 && a in TagFindings(s, lba)
    ensures IsTagAnomaly(a) && a.lba == lba && DescriptorLabel(Le16(s, 0)) == Some(a.descriptor)
    ensures a.TagChecksumBad? ==> a.storedSum == s[4] && a.computedSum == ChecksumOf(s)
    ensures a.TagCrcMismatch? ==>
      16 + Le16(s, 10) <= |s| && a.stored == Le16(s, 8) && a.computed == Crc.CrcOf(s[16..16 + Le16(s, 10)])
  {
  }

  /** The fields the audit compares: checksum at 4, CRC at 8, and its length at 10. */
  lemma ValidByFields(s: seq<byte>)
    requires |s| >= 16
    ensures ChecksumValid(s) <==> s[4] == (ByteSum(s[..16]) - s[4]) % 0x100
    ensures SpanFits(s) <==> 16 + Le16(s, 10) <= |s|
    ensures SpanFits(s) ==> (CrcValid(s) <==> Le16(s, 8) == Crc.CrcOf(s[16..16 + Le16(s, 10)]))
  {
  }
}
