/** The partition map table of a Logical Volume Descriptor (ECMA-167 part 3, sections 10.6 and 10.7). */
module PartitionMaps {
  import opened Bytes
  import Lists

  datatype PartitionKind = Physical | Virtual | Sparable | Metadata | Unknown

  /** Only a physical map carries a partition number. */
  datatype PartitionMap = PartitionMap(kind: PartitionKind, number: Option<U16>)

  const TABLE: nat := 440

  function Ascii(s: string): (b: seq<byte>)
    ensures |b| == |s|
  {
    seq(|s|, i requires 0 <= i < |s| => s[i] as int % 0x100)
  }

  predicate MatchAt(hay: seq<byte>, needle: seq<byte>, i: int) {
    0 <= i && i + |needle| <= |hay| && needle <= hay[i..]
  }

  predicate Contains(hay: seq<byte>, needle: seq<byte>) {
    exists i: nat | i <= |hay| :: MatchAt(hay, needle, i)
  }

  function ClassifyType2(rec: seq<byte>): PartitionKind {
    if Contains(rec, Ascii("*UDF Metadata Partition")) then Metadata
    else if Contains(rec, Ascii("*UDF Virtual Partition")) then Virtual
    else if Contains(rec, Ascii("*UDF Sparable Partition")) then Sparable
    else Unknown
  }

  function DecodeMap(rec: seq<byte>): PartitionMap
    requires |rec| >= 2
  {
    if rec[0] == 1 && |rec| >= 6 then PartitionMap(Physical, Some(Le16(rec, 4)))
    else if rec[0] == 2 then PartitionMap(ClassifyType2(rec), None)
    else PartitionMap(Unknown, None)
  }

  /** The table's end: its declared length, cut at the sector's end. */
  function TableEnd(lvd: seq<byte>): (end: nat)
    ensures end <= |lvd| && end <= TABLE + Le32(lvd, 264)
  {
    Min(TABLE + Le32(lvd, 264), |lvd|)
  }

  /** No record can be read at `off`. */
  predicate Stuck(lvd: seq<byte>, off: nat, end: nat)
    requires end <= |lvd|
  {
    off + 2 > end || lvd[off + 1] < 2 || off + lvd[off + 1] > end
  }

  predicate IsRecord(rec: seq<byte>) {
    |rec| >= 2 && rec[1] == |rec|
  }

  predicate AreRecords(recs: seq<seq<byte>>) {
    forall i :: 0 <= i < |recs| ==> IsRecord(recs[i])
  }

  /** The records the parse takes: at most `n`, up to where none can be read. */
  function RecordsFrom(lvd: seq<byte>, off: nat, end: nat, n: nat): (recs: seq<seq<byte>>)
    requires end <= |lvd|
    ensures |recs| <= n && AreRecords(recs)
    decreases n
  {
    if n == 0 || Stuck(lvd, off, end) then []
    else
      var len := lvd[off + 1];
      [lvd[off..off + len]] + RecordsFrom(lvd, off + len, end, n - 1)
  }

  function RecordsOf(lvd: seq<byte>): (recs: seq<seq<byte>>)
    ensures AreRecords(recs)
  {
    RecordsFrom(lvd, TABLE, TableEnd(lvd), Le32(lvd, 268))
  }

  function DecodeAll(recs: seq<seq<byte>>): (maps: seq<PartitionMap>)
    requires AreRecords(recs)
    ensures |maps| == |recs| && forall i :: 0 <= i < |recs| ==> maps[i] == DecodeMap(recs[i])
  {
    seq(|recs|, i requires 0 <= i < |recs| => DecodeMap(recs[i]))
  }

  function MapsOf(lvd: seq<byte>): seq<PartitionMap> {
    DecodeAll(RecordsOf(lvd))
  }

  /** The parse has taken the records `done`, has decoded them to `out`, and goes on at `off`. */
  ghost predicate ParsedSoFar(lvd: seq<byte>, off: nat, done: seq<seq<byte>>, out: seq<PartitionMap>) {
    && |done| <= Le32(lvd, 268) && AreRecords(done)
    && RecordsOf(lvd) == done + RecordsFrom(lvd, off, TableEnd(lvd), Le32(lvd, 268) - |done|)
    && out == DecodeAll(done)
  }

  lemma ParsesNext(lvd: seq<byte>, off: nat, done: seq<seq<byte>>, out: seq<PartitionMap>)
    requires ParsedSoFar(lvd, off, done, out) && |done| < Le32(lvd, 268) && !Stuck(lvd, off, TableEnd(lvd))
    ensures var rec := lvd[off..off + lvd[off + 1]];
      IsRecord(rec) && ParsedSoFar(lvd, off + |rec|, done + [rec], out + [DecodeMap(rec)])
  {
    var rec := lvd[off..off + lvd[off + 1]];
    Lists.Regroup(done, [rec], RecordsFrom(lvd, off + |rec|, TableEnd(lvd), Le32(lvd, 268) - |done| - 1));
  }

  lemma ParseEnds(lvd: seq<byte>, off: nat, done: seq<seq<byte>>, out: seq<PartitionMap>)
    requires ParsedSoFar(lvd, off, done, out) && (|done| == Le32(lvd, 268) || Stuck(lvd, off, TableEnd(lvd)))
    ensures out == MapsOf(lvd)
  {
    assert done + [] == done;
  }

  method ParsePartitionMaps(lvd: seq<byte>) returns (out: seq<PartitionMap>)
    ensures out == MapsOf(lvd)
  {
    var n := Le32(lvd, 268);
    var end := TableEnd(lvd);
    out := [];
    ghost var done: seq<seq<byte>> := [];
    var off: nat := TABLE;
    assert [] + RecordsOf(lvd) == RecordsOf(lvd);
    while |out| < n && off + 2 <= end
      invariant ParsedSoFar(lvd, off, done, out)
      decreases n - |out|
    {
      var len := lvd[off + 1];
      if len < 2 || off + len > end {
        break;
      }
      ParsesNext(lvd, off, done, out);
      out := out + [DecodeMap(lvd[off..off + len])];
      done := done + [lvd[off..off + len]];
      off := off + len as int;
    }
    ParseEnds(lvd, off, done, out);
  }

  // ----- the parse and the table -----

  function Flatten(recs: seq<seq<byte>>): seq<byte> {
    if recs == [] then [] else recs[0] + Flatten(recs[1..])
  }

  /** The records `recs` stand in the table from `off` on. */
  predicate Stands(lvd: seq<byte>, off: nat, end: nat, recs: seq<seq<byte>>)
    requires end <= |lvd|
  {
    off + |Flatten(recs)| <= end && lvd[off..off + |Flatten(recs)|] == Flatten(recs)
  }

  lemma StandsHead(lvd: seq<byte>, off: nat, end: nat, recs: seq<seq<byte>>)
    requires end <= |lvd| && recs != [] && AreRecords(recs) && Stands(lvd, off, end, recs)
    ensures !Stuck(lvd, off, end) && lvd[off + 1] == |recs[0]|
    ensures lvd[off..off + |recs[0]|] == recs[0]
    ensures Stands(lvd, off + |recs[0]|, end, recs[1..])
  {
    var f := Flatten(recs);
    assert lvd[off..off + |f|][..|recs[0]|] == recs[0];
    assert lvd[off..off + |f|][|recs[0]|..] == Flatten(recs[1..]);
    assert lvd[off + 1] == lvd[off..off + |f|][1];
  }

  lemma StandsRest(lvd: seq<byte>, off: nat, end: nat, recs: seq<seq<byte>>)
    requires end <= |lvd| && recs != [] && AreRecords(recs) && Stands(lvd, off, end, recs)
    ensures AreRecords(recs[1..]) && Stands(lvd, off + |recs[0]|, end, recs[1..])
  {
    StandsHead(lvd, off, end, recs);
  }

  lemma StandsCons(lvd: seq<byte>, off: nat, end: nat, rec: seq<byte>, rest: seq<seq<byte>>)
    requires end <= |lvd| && off + |rec| <= end && lvd[off..off + |rec|] == rec
    requires Stands(lvd, off + |rec|, end, rest)
    ensures Stands(lvd, off, end, [rec] + rest) && |Flatten([rec] + rest)| == |rec| + |Flatten(rest)|
  {
    var f := Flatten(rest);
    assert ([rec] + rest)[1..] == rest;
    assert lvd[off..off + |rec| + |f|] == lvd[off..off + |rec|] + lvd[off + |rec|..off + |rec| + |f|];
  }

  lemma ParseOne(lvd: seq<byte>, off: nat, end: nat, n: nat, rec: seq<byte>, rest: seq<seq<byte>>, tail: seq<seq<byte>>)
    requires end <= |lvd| && n > 0 && !Stuck(lvd, off, end)
    requires lvd[off + 1] == |rec| && lvd[off..off + |rec|] == rec
    requires RecordsFrom(lvd, off + |rec|, end, n - 1) == rest + tail
    ensures RecordsFrom(lvd, off, end, n) == [rec] + rest + tail
  {
    Lists.Regroup([rec], rest, tail);
  }

  /** The first of the records that stand in the table is parsed, given that the others are. */
  lemma ParseFirst(lvd: seq<byte>, off: nat, end: nat, recs: seq<seq<byte>>, n: nat, tail: seq<seq<byte>>)
    requires end <= |lvd| && recs != [] && AreRecords(recs) && Stands(lvd, off, end, recs) && |recs| <= n
    requires RecordsFrom(lvd, off + |recs[0]|, end, n - 1) == recs[1..] + tail
    ensures RecordsFrom(lvd, off, end, n) == recs + tail
  {
    StandsHead(lvd, off, end, recs);
    ParseOne(lvd, off, end, n, recs[0], recs[1..], tail);
    assert recs == [recs[0]] + recs[1..];
  }

  lemma NoneParsed(lvd: seq<byte>, off: nat, end: nat, n: nat)
    requires end <= |lvd|
    ensures RecordsFrom(lvd, off, end, n) == [] + RecordsFrom(lvd, off + |Flatten([])|, end, n)
  {
  }

  lemma FlattenLength(recs: seq<seq<byte>>, off: nat)
    requires recs != []
    ensures off + |Flatten(recs)| == off + |recs[0]| + |Flatten(recs[1..])|
  {
  }

  /** Records that stand in the table are parsed, and parsing goes on behind them. */
  lemma {:induction false} RecordsAreParsed(lvd: seq<byte>, off: nat, end: nat, recs: seq<seq<byte>>, n: nat)
    requires end <= |lvd| && AreRecords(recs) && Stands(lvd, off, end, recs) && |recs| <= n
    ensures RecordsFrom(lvd, off, end, n) == recs + RecordsFrom(lvd, off + |Flatten(recs)|, end, n - |recs|)
    decreases |recs|
  {
    if recs == [] {
      NoneParsed(lvd, off, end, n);
    } else {
      var tail := RecordsFrom(lvd, off + |Flatten(recs)|, end, n - |recs|);
      assert RecordsFrom(lvd, off + |recs[0]|, end, n - 1) == recs[1..] + tail by {
        FlattenLength(recs, off);
        StandsRest(lvd, off, end, recs);
        RecordsAreParsed(lvd, off + |recs[0]|, end, recs[1..], n - 1);
      }
      ParseFirst(lvd, off, end, recs, n, tail);
    }
  }

  /**
   * The parsed records stand in the table, and the parse ends only at the
   * declared count or where no record can be read.
   */
  lemma {:induction false} ParseIsMaximal(lvd: seq<byte>, off: nat, end: nat, n: nat)
    requires off <= end <= |lvd|
    ensures var recs := RecordsFrom(lvd, off, end, n);
      Stands(lvd, off, end, recs) && (|recs| == n || Stuck(lvd, off + |Flatten(recs)|, end))
    decreases n
  {
    if n > 0 && !Stuck(lvd, off, end) {
      var rec := lvd[off..off + lvd[off + 1]];
      ParseIsMaximal(lvd, off + |rec|, end, n - 1);
      StandsCons(lvd, off, end, rec, RecordsFrom(lvd, off + |rec|, end, n - 1));
    }
  }

  /**
   * On any sector the parse takes the longest run of records the table holds:
   * it is one such run, and every other one of at most N_PM records is its prefix.
   */
  lemma ParseIsLongest(lvd: seq<byte>, recs: seq<seq<byte>>)
    requires TABLE <= |lvd| && AreRecords(recs)
    requires Stands(lvd, TABLE, TableEnd(lvd), recs) && |recs| <= Le32(lvd, 268)
    ensures recs <= RecordsOf(lvd)
    ensures Stands(lvd, TABLE, TableEnd(lvd), RecordsOf(lvd)) && |RecordsOf(lvd)| <= Le32(lvd, 268)
    ensures recs == RecordsOf(lvd) <==>
      |recs| == Le32(lvd, 268) || Stuck(lvd, TABLE + |Flatten(recs)|, TableEnd(lvd))
  {
    RecordsAreParsed(lvd, TABLE, TableEnd(lvd), recs, Le32(lvd, 268));
    ParseIsMaximal(lvd, TABLE, TableEnd(lvd), Le32(lvd, 268));
  }

  // ----- encoding -----

  function Ident(kind: PartitionKind): (id: seq<byte>)
    ensures |id| <= 23
  {
    match kind
    case Metadata => Ascii("*UDF Metadata Partition")
    case Virtual => Ascii("*UDF Virtual Partition")
    case Sparable => Ascii("*UDF Sparable Partition")
    case _ => []
  }

  predicate NoAsterisk(b: seq<byte>) {
    forall i :: 0 <= i < |b| ==> b[i] != '*' as int
  }

  /** A map, and the bytes in front of and behind what the parser takes from it. */
  datatype MapRecord = MapRecord(content: PartitionMap, before: seq<byte>, after: seq<byte>)

  /** A type 1 map has a volume sequence number; a type 2 map any other bytes without an asterisk. */
  predicate Encodable(r: MapRecord) {
    && (r.content.kind == Physical <==> r.content.number.Some?)
    && if r.content.kind == Physical then |r.before| == 2 && r.after == []
       else |r.before| == 3 && |r.after| == 59 - |Ident(r.content.kind)| && NoAsterisk(r.before) && NoAsterisk(r.after)
  }

  /** A type 1 map of 6 bytes, or a type 2 map of 64 with its entity identifier at 5. */
  function EncodeMap(r: MapRecord): (rec: seq<byte>)
    requires Encodable(r)
    ensures IsRecord(rec)
  {
    if r.content.kind == Physical then [1, 6] + r.before + Put16(r.content.number.value)
    else [2, 64] + r.before + Ident(r.content.kind) + r.after
  }

  function EncodeAll(rs: seq<MapRecord>): (recs: seq<seq<byte>>)
    requires forall r :: r in rs ==> Encodable(r)
    ensures |recs| == |rs| && AreRecords(recs)
    ensures forall i :: 0 <= i < |rs| ==> recs[i] == EncodeMap(rs[i])
  {
    seq(|rs|, i requires 0 <= i < |rs| => EncodeMap(rs[i]))
  }

  function MapsIn(rs: seq<MapRecord>): (maps: seq<PartitionMap>)
    ensures |maps| == |rs| && forall i :: 0 <= i < |rs| ==> maps[i] == rs[i].content
  {
    seq(|rs|, i requires 0 <= i < |rs| => rs[i].content)
  }

  /** In an encoded type 2 map an asterisk stands only at 5, so a needle can only match there. */
  lemma MatchesAtFive(rec: seq<byte>, needle: seq<byte>)
    requires |needle| > 5 && needle[0] == '*' as int
    requires forall i :: 0 <= i < |rec| && rec[i] == '*' as int ==> i == 5
    requires 5 + |needle| <= |rec|
    ensures needle <= rec[5..] ==> Contains(rec, needle)
    ensures needle[5] != rec[10] ==> !Contains(rec, needle)
  {
    assert needle <= rec[5..] ==> MatchAt(rec, needle, 5);
    if Contains(rec, needle) {
      var i: nat :| i <= |rec| && MatchAt(rec, needle, i);
      assert rec[i..][0] == needle[0] && rec[i..][5] == needle[5];
    }
  }

  lemma NoneAfter(s: string, i: nat)
    requires s == "*UDF Metadata Partition" || s == "*UDF Virtual Partition" || s == "*UDF Sparable Partition"
    requires 0 < i < |s|
    ensures s[i] as int % 0x100 != '*' as int
  {
    var c := s[i];
    if i == 1 {} else if i == 2 {} else if i == 3 {} else if i == 4 {} else if i == 5 {}
    else if i < 10 { assert c in "etada" + "irtua" + "parab"; }
    else if i < 15 { assert c in "ta Pa" + "al Partit" + "ble Pa"; }
    else { assert c in "artition"; }
  }

  lemma OneAsterisk(kind: PartitionKind, i: nat)
    requires 0 < i < |Ident(kind)|
    ensures Ident(kind)[i] != '*' as int
  {
    match kind
    case Metadata => NoneAfter("*UDF Metadata Partition", i);
    case Virtual => NoneAfter("*UDF Virtual Partition", i);
    case Sparable => NoneAfter("*UDF Sparable Partition", i);
    case _ =>
  }

  lemma IdentOnly(r: MapRecord)
    requires Encodable(r) && r.content.kind != Physical
    ensures var rec := EncodeMap(r);
      && |rec| == 64 && Ident(r.content.kind) <= rec[5..]
      && forall i :: 0 <= i < |rec| && rec[i] == '*' as int ==> i == 5 && r.content.kind != Unknown
  {
    var id, rec := Ident(r.content.kind), EncodeMap(r);
    assert rec[5..] == id + r.after;
    forall i | 0 <= i < |rec|
      ensures rec[i] == '*' as int ==> i == 5 && r.content.kind != Unknown
    {
      if 2 <= i < 5 {
        assert rec[i] == r.before[i - 2];
      } else if 5 <= i < 5 + |id| {
        assert rec[i] == id[i - 5];
        if i > 5 {
          OneAsterisk(r.content.kind, i - 5);
        }
      } else if i >= 5 + |id| {
        assert rec[i] == r.after[i - 5 - |id|];
      }
    }
  }

  lemma DistinctIdents(kind: PartitionKind, other: PartitionKind)
    requires kind in {Metadata, Virtual, Sparable} && other in {Metadata, Virtual, Sparable}
    ensures |Ident(kind)| > 5 && |Ident(other)| > 5 && Ident(other)[0] == '*' as int
    ensures Ident(kind)[5] == Ident(other)[5] <==> kind == other
    ensures Ident(other)[5] != 0
  {
    assert Ident(Metadata)[5] == 'M' as int && Ident(Virtual)[5] == 'V' as int && Ident(Sparable)[5] == 'S' as int;
  }

  /** Without an asterisk nothing that starts with one is found. */
  lemma NothingFound(rec: seq<byte>, needle: seq<byte>)
    requires NoAsterisk(rec) && |needle| > 0 && needle[0] == '*' as int
    ensures !Contains(rec, needle)
  {
    forall i: nat | i <= |rec|
      ensures !MatchAt(rec, needle, i)
    {
      assert i < |rec| ==> rec[i..][0] == rec[i];
    }
  }

  lemma OtherIdent(r: MapRecord, other: PartitionKind)
    requires Encodable(r) && r.content.kind != Physical && other in {Metadata, Virtual, Sparable}
    ensures Contains(EncodeMap(r), Ident(other)) <==> r.content.kind == other
  {
    var rec, kind := EncodeMap(r), r.content.kind;
    IdentOnly(r);
    DistinctIdents(other, other);
    if kind == Unknown {
      NothingFound(rec, Ident(other));
    } else {
      DistinctIdents(kind, other);
      MatchesAtFive(rec, Ident(other));
      assert rec[10] == rec[5..][5] == Ident(kind)[5];
    }
  }

  lemma ClassifyEncoded(r: MapRecord)
    requires Encodable(r) && r.content.kind != Physical
    ensures ClassifyType2(EncodeMap(r)) == r.content.kind
  {
    OtherIdent(r, Metadata);
    OtherIdent(r, Virtual);
    OtherIdent(r, Sparable);
  }

  lemma DecodeEncode(r: MapRecord)
    requires Encodable(r)
    ensures DecodeMap(EncodeMap(r)) == r.content
  {
    if r.content.kind == Physical {
      SameFields(EncodeMap(r), 4, Put16(r.content.number.value), 0, 2, 0);
    } else {
      ClassifyEncoded(r);
    }
  }

  /** Parsing inverts encoding for every table that fits its sector. */
  lemma ParseEncoded(lvd: seq<byte>, rs: seq<MapRecord>)
    requires forall r :: r in rs ==> Encodable(r)
    requires Le32(lvd, 268) == |rs| && Le32(lvd, 264) == |Flatten(EncodeAll(rs))|
    requires TABLE + |Flatten(EncodeAll(rs))| <= |lvd|
    requires lvd[TABLE..TABLE + |Flatten(EncodeAll(rs))|] == Flatten(EncodeAll(rs))
    ensures MapsOf(lvd) == MapsIn(rs)
  {
    var recs := EncodeAll(rs);
    ParseIsLongest(lvd, recs);
    assert recs == RecordsOf(lvd);
    forall i | 0 <= i < |rs|
      ensures DecodeAll(recs)[i] == rs[i].content
    {
      DecodeEncode(rs[i]);
    }
  }

  /** Type 1 maps too short for a number, and maps of any other type, are of unknown kind. */
  lemma OtherMaps(rec: seq<byte>)
    requires |rec| >= 2
    ensures rec[0] == 1 && |rec| >= 6 ==> DecodeMap(rec) == PartitionMap(Physical, Some(Le16(rec, 4)))
    ensures (rec[0] == 1 && |rec| < 6) || (rec[0] != 1 && rec[0] != 2) ==> DecodeMap(rec) == PartitionMap(Unknown, None)
    ensures rec[0] == 2 ==> DecodeMap(rec).number.None? && DecodeMap(rec).kind != Physical
  {
  }

  /** No record can be read where the table ends, or where a length is below 2 or runs over the table's end. */
  lemma StuckIs(lvd: seq<byte>, off: nat, end: nat)
    requires end <= |lvd|
    ensures Stuck(lvd, off, end) <==> off + 2 > end || lvd[off + 1] < 2 || off + lvd[off + 1] > end
  {
  }
}
