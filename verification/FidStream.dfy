/** Encoding directories, in both layouts, and what the parser makes of them. */
module FidStream {
  import opened Bytes
  import Lists
  import opened Tags
  import opened FileEntry
  import opened Fids

  /** A descriptor: the fields the parser reads, and everything else it may hold. */
  datatype Record = Record(fid: Fid, tagVersion: seq<byte>, tagLocation: seq<byte>, fileVersion: seq<byte>,
                           extentLength: U32, partition: U16, icbUse: seq<byte>, implUse: seq<byte>)

  function BodyLength(r: Record, ts: nat): nat
    requires IsLayout(ts)
  {
    ts + 4 + |r.implUse| + |r.fid.name|
  }

  predicate Encodable(r: Record, ts: nat)
    requires IsLayout(ts)
  {
    && |r.tagVersion| == 8 && |r.tagLocation| == 4 && |r.fileVersion| == ts - 16 && |r.icbUse| == 6
    && |r.fid.name| <= 255 && BodyLength(r, ts) <= 0xFFFF
  }

  function Tag(r: Record, ts: nat): (t: seq<byte>)
    requires IsLayout(ts) && Encodable(r, ts)
    ensures |t| == 16
  {
    Put16(TAG_FID) + r.tagVersion + Put16(BodyLength(r, ts)) + r.tagLocation
  }

  /** Characteristics, name length, long_ad of the entry, implementation use length. */
  function Core(r: Record): (c: seq<byte>)
    requires |r.icbUse| == 6 && |r.fid.name| <= 255 && |r.implUse| <= 0xFFFF
    ensures |c| == 20
  {
    [r.fid.chars, |r.fid.name|] + (Put32(r.extentLength) +
      (Put32(r.fid.lbn) + (Put16(r.partition) + (r.icbUse + Put16(|r.implUse|)))))
  }

  /** A whole descriptor, padded to a multiple of four. */
  function Encode(r: Record, ts: nat): (s: seq<byte>)
    requires IsLayout(ts) && Encodable(r, ts)
    ensures |s| == Align4(ts + 20 + |r.implUse| + |r.fid.name|)
  {
    var n := ts + 20 + |r.implUse| + |r.fid.name|;
    Tag(r, ts) + (r.fileVersion + (Core(r) + (r.implUse + (r.fid.name + Fill(Align4(n) - n)))))
  }

  lemma TagFields(r: Record, ts: nat)
    requires IsLayout(ts) && Encodable(r, ts)
    ensures Le16(Tag(r, ts), 0) == TAG_FID && Le16(Tag(r, ts), 10) == BodyLength(r, ts)
  {
    var t := Tag(r, ts);
    SameFields(t, 0, Put16(TAG_FID), 0, 2, 0);
    SameFields(t, 10, Put16(BodyLength(r, ts)), 0, 2, 0);
  }

  lemma CoreFields(r: Record)
    requires |r.icbUse| == 6 && |r.fid.name| <= 255 && |r.implUse| <= 0xFFFF
    ensures var c := Core(r);
      && c[0] == r.fid.chars && c[1] == |r.fid.name|
      && Le32(c, 6) == r.fid.lbn && Le16(c, 18) == |r.implUse|
      && Le32(c, 4) == r.extentLength / 0x1_0000 + 0x1_0000 * (r.fid.lbn % 0x1_0000)
      && Le32(c, 8) == r.fid.lbn / 0x1_0000 + 0x1_0000 * r.partition as int
  {
    var c := Core(r);
    SameFields(c, 2, Put32(r.extentLength), 0, 4, 2);
    SameFields(c, 6, Put32(r.fid.lbn), 0, 4, 0);
    SameFields(c, 6, Put32(r.fid.lbn), 0, 4, 2);
    SameFields(c, 10, Put16(r.partition), 0, 2, 0);
    SameFields(c, 18, Put16(|r.implUse|), 0, 2, 0);
  }

  /** Where the pieces of a descriptor stand in data that holds it at `off`. */
  predicate Holds(data: seq<byte>, off: nat, r: Record, ts: nat)
    requires IsLayout(ts) && Encodable(r, ts)
  {
    var name := off + ts + 20 + |r.implUse|;
    && off + |Encode(r, ts)| <= |data|
    && data[off..off + 16] == Tag(r, ts)
    && data[off + ts..off + ts + 20] == Core(r)
    && data[name..name + |r.fid.name|] == r.fid.name
  }

  lemma Shifted(a: seq<byte>, s: seq<byte>, b: seq<byte>, from: nat, to: nat)
    requires from <= to <= |s|
    ensures (a + s + b)[|a| + from..|a| + to] == s[from..to]
  {
  }

  /** The middle one of three pieces. */
  lemma PieceAt(a: seq<byte>, x: seq<byte>, b: seq<byte>)
    ensures (a + x + b)[|a|..|a| + |x|] == x
  {
  }

  lemma TagOfEncoded(r: Record, ts: nat)
    requires IsLayout(ts) && Encodable(r, ts)
    ensures Encode(r, ts)[0..16] == Tag(r, ts)
  {
  }

  lemma CoreOfEncoded(r: Record, ts: nat)
    requires IsLayout(ts) && Encodable(r, ts)
    ensures Encode(r, ts)[ts..ts + 20] == Core(r)
  {
    var n := ts + 20 + |r.implUse| + |r.fid.name|;
    var before, rest := Tag(r, ts) + r.fileVersion, r.implUse + (r.fid.name + Fill(Align4(n) - n));
    Lists.Regroup(Tag(r, ts), r.fileVersion, Core(r) + rest);
    Lists.Regroup(before, Core(r), rest);
    PieceAt(before, Core(r), rest);
  }

  lemma NameOfEncoded(r: Record, ts: nat)
    requires IsLayout(ts) && Encodable(r, ts)
    ensures var at := ts + 20 + |r.implUse|;
      Encode(r, ts)[at..at + |r.fid.name|] == r.fid.name
  {
    var n := ts + 20 + |r.implUse| + |r.fid.name|;
    var fill := Fill(Align4(n) - n);
    var head, use := Tag(r, ts) + r.fileVersion, r.implUse;
    Lists.Regroup(Tag(r, ts), r.fileVersion, Core(r) + (use + (r.fid.name + fill)));
    Lists.Regroup(head, Core(r), use + (r.fid.name + fill));
    Lists.Regroup(head + Core(r), use, r.fid.name + fill);
    Lists.Regroup(head + Core(r) + use, r.fid.name, fill);
    PieceAt(head + Core(r) + use, r.fid.name, fill);
  }

  lemma EncodedHolds(prefix: seq<byte>, r: Record, ts: nat, rest: seq<byte>)
    requires IsLayout(ts) && Encodable(r, ts)
    ensures Holds(prefix + Encode(r, ts) + rest, |prefix|, r, ts)
  {
    var s := Encode(r, ts);
    var at := ts + 20 + |r.implUse|;
    TagOfEncoded(r, ts);
    CoreOfEncoded(r, ts);
    NameOfEncoded(r, ts);
    Shifted(prefix, s, rest, 0, 16);
    Shifted(prefix, s, rest, ts, ts + 20);
    Shifted(prefix, s, rest, at, at + |r.fid.name|);
  }

  lemma TagReadBack(data: seq<byte>, off: nat, r: Record, ts: nat)
    requires IsLayout(ts) && Encodable(r, ts) && Holds(data, off, r, ts)
    ensures Le16(data, off) == TAG_FID && Le16(data, off + 10) == BodyLength(r, ts)
  {
    var t := Tag(r, ts);
    assert t[0..16] == t;
    TagFields(r, ts);
    SameFields(data, off, t, 0, 16, 0);
    SameFields(data, off, t, 0, 16, 10);
  }

  lemma CoreBytes(data: seq<byte>, at: nat, r: Record)
    requires |r.icbUse| == 6 && |r.fid.name| <= 255 && |r.implUse| <= 0xFFFF
    requires at + 20 <= |data| && data[at..at + 20] == Core(r)
    ensures data[at] == r.fid.chars && data[at + 1] == |r.fid.name| && Le16(data, at + 18) == |r.implUse|
  {
    var c := Core(r);
    assert c[0..20] == c;
    CoreFields(r);
    SameFields(data, at, c, 0, 20, 0);
    SameFields(data, at, c, 0, 20, 1);
    SameFields(data, at, c, 0, 20, 18);
  }

  lemma CoreWords(data: seq<byte>, at: nat, r: Record)
    requires |r.icbUse| == 6 && |r.fid.name| <= 255 && |r.implUse| <= 0xFFFF
    requires at + 20 <= |data| && data[at..at + 20] == Core(r)
    ensures Le32(data, at + 6) == r.fid.lbn
    ensures Le32(data, at + 4) == r.extentLength / 0x1_0000 + 0x1_0000 * (r.fid.lbn % 0x1_0000)
    ensures Le32(data, at + 8) == r.fid.lbn / 0x1_0000 + 0x1_0000 * r.partition as int
  {
    var c := Core(r);
    assert c[0..20] == c;
    CoreFields(r);
    SameFields(data, at, c, 0, 20, 4);
    SameFields(data, at, c, 0, 20, 6);
    SameFields(data, at, c, 0, 20, 8);
  }

  lemma NameReadBack(data: seq<byte>, off: nat, r: Record, ts: nat)
    requires IsLayout(ts) && Encodable(r, ts) && Holds(data, off, r, ts)
    requires data[off + ts + 1] == |r.fid.name| && Le16(data, off + ts + 18) == |r.implUse|
    ensures NameAt(data, off, ts) == r.fid.name
  {
  }

  /** The parser reads back the descriptor it holds. */
  lemma ReadBack(data: seq<byte>, off: nat, r: Record, ts: nat)
    requires IsLayout(ts) && Encodable(r, ts) && Holds(data, off, r, ts)
    ensures off + ts + 20 <= |data| && Le16(data, off) == TAG_FID
    ensures Advance(data, off, ts) == |Encode(r, ts)|
    ensures FidAt(data, off, ts) == r.fid
  {
    TagReadBack(data, off, r, ts);
    CoreBytes(data, off + ts, r);
    CoreWords(data, off + ts, r);
    NameReadBack(data, off, r, ts);
  }

  // ----- the layout heuristic -----

  lemma LayoutFields(data: seq<byte>, off: nat, r: Record, ts: nat)
    requires IsLayout(ts) && Encodable(r, ts) && Holds(data, off, r, ts)
    ensures off + 28 <= |data| && Le16(data, off) == TAG_FID
    ensures ts == 16 ==>
      Le32(data, off + 22) == r.fid.lbn &&
      Le32(data, off + 24) == r.fid.lbn / 0x1_0000 + 0x1_0000 * r.partition as int
    ensures ts == 18 ==>
      Le32(data, off + 24) == r.fid.lbn &&
      Le32(data, off + 22) == r.extentLength / 0x1_0000 + 0x1_0000 * (r.fid.lbn % 0x1_0000)
  {
    TagReadBack(data, off, r, ts);
    CoreWords(data, off + ts, r);
  }

  /**
   * On a first descriptor behind the tag the answer is 16 exactly for a block number below 65536 or
   * a partition other than 0.
   */
  lemma Layout16(data: seq<byte>, off: nat, r: Record)
    requires Encodable(r, 16) && Holds(data, off, r, 16)
    ensures LayoutFrom(data, off) == 16 <==> r.fid.lbn < 0x1_0000 || r.partition > 0
  {
    LayoutFields(data, off, r, 16);
  }

  /** On a first descriptor with a version field the answer is 18 exactly for a block number in 1..65535. */
  lemma Layout18(data: seq<byte>, off: nat, r: Record)
    requires Encodable(r, 18) && Holds(data, off, r, 18)
    ensures LayoutFrom(data, off) == 18 <==> 1 <= r.fid.lbn < 0x1_0000
  {
    LayoutFields(data, off, r, 18);
  }

  // ----- streams -----

  /** Four bytes of padding, or a descriptor. */
  datatype Piece = Padding(bytes: seq<byte>) | Encoded(r: Record)

  predicate WellFormed(x: Piece, ts: nat)
    requires IsLayout(ts)
  {
    match x
    case Padding(b) => |b| == 4 && Le16(b, 0) != TAG_FID
    case Encoded(r) => Encodable(r, ts)
  }

  predicate AllWellFormed(xs: seq<Piece>, ts: nat)
    requires IsLayout(ts)
  {
    forall i :: 0 <= i < |xs| ==> WellFormed(xs[i], ts)
  }

  function EncodePiece(x: Piece, ts: nat): seq<byte>
    requires IsLayout(ts) && WellFormed(x, ts)
  {
    match x
    case Padding(b) => b
    case Encoded(r) => Encode(r, ts)
  }

  function EncodeAll(xs: seq<Piece>, ts: nat): seq<byte>
    requires IsLayout(ts) && AllWellFormed(xs, ts)
  {
    if xs == [] then [] else EncodePiece(xs[0], ts) + EncodeAll(xs[1..], ts)
  }

  /** What a directory of these pieces should list: every descriptor that can be listed, in order. */
  function Expected(p: Place, xs: seq<Piece>): seq<DirEntry> {
    if xs == [] then []
    else (match xs[0] case Padding(_) => [] case Encoded(r) => Listed(p, r.fid)) + Expected(p, xs[1..])
  }

  function FirstDescriptor(xs: seq<Piece>): Option<Record> {
    if xs == [] then None
    else if xs[0].Encoded? then Some(xs[0].r)
    else FirstDescriptor(xs[1..])
  }

  /** Less than a descriptor's worth of bytes encodes no descriptor. */
  lemma {:induction false} TooShort(p: Place, xs: seq<Piece>, ts: nat)
    requires IsLayout(ts) && AllWellFormed(xs, ts) && |EncodeAll(xs, ts)| < ts + 20
    ensures Expected(p, xs) == [] && FirstDescriptor(xs).None?
  {
    if xs != [] {
      assert WellFormed(xs[0], ts);
      TooShort(p, xs[1..], ts);
    }
  }

  lemma PaddingAt(prefix: seq<byte>, b: seq<byte>, rest: seq<byte>)
    requires |b| == 4
    ensures Le16(prefix + b + rest, |prefix|) == Le16(b, 0)
  {
  }

  lemma StepPadding(p: Place, prefix: seq<byte>, b: seq<byte>, rest: seq<byte>, ts: nat)
    requires IsLayout(ts) && |b| == 4 && Le16(b, 0) != TAG_FID
    requires |prefix| + ts + 20 <= |prefix + b + rest|
    ensures ListFrom(p, prefix + b + rest, ts, |prefix|) == ListFrom(p, prefix + b + rest, ts, |prefix + b|)
  {
    PaddingAt(prefix, b, rest);
  }

  lemma StepDescriptor(p: Place, prefix: seq<byte>, r: Record, rest: seq<byte>, ts: nat)
    requires IsLayout(ts) && Encodable(r, ts)
    ensures var head := Encode(r, ts);
      ListFrom(p, prefix + head + rest, ts, |prefix|) ==
        Listed(p, r.fid) + ListFrom(p, prefix + head + rest, ts, |prefix + head|)
  {
    EncodedHolds(prefix, r, ts, rest);
    ReadBack(prefix + Encode(r, ts) + rest, |prefix|, r, ts);
  }

  /** Parsing inverts encoding behind any prefix. */
  lemma {:induction false} ParseStream(p: Place, prefix: seq<byte>, xs: seq<Piece>, ts: nat)
    requires IsLayout(ts) && AllWellFormed(xs, ts)
    ensures ListFrom(p, prefix + EncodeAll(xs, ts), ts, |prefix|) == Expected(p, xs)
    decreases |xs|
  {
    var data := prefix + EncodeAll(xs, ts);
    if |prefix| + ts + 20 > |data| {
      TooShort(p, xs, ts);
    } else if xs != [] {
      assert WellFormed(xs[0], ts);
      var head, rest := EncodePiece(xs[0], ts), EncodeAll(xs[1..], ts);
      assert data == prefix + head + rest;
      ParseStream(p, prefix + head, xs[1..], ts);
      match xs[0]
      case Padding(b) =>
        StepPadding(p, prefix, b, rest, ts);
      case Encoded(r) =>
        StepDescriptor(p, prefix, r, rest, ts);
    }
  }

  lemma LayoutOfFirst(prefix: seq<byte>, r: Record, ts: nat, rest: seq<byte>)
    requires IsLayout(ts) && Encodable(r, ts)
    ensures var answer := LayoutFrom(prefix + Encode(r, ts) + rest, |prefix|);
      && (ts == 18 ==> (answer == 18 <==> 1 <= r.fid.lbn < 0x1_0000))
      && (ts == 16 ==> (answer == 16 <==> r.fid.lbn < 0x1_0000 || r.partition > 0))
  {
    var data := prefix + Encode(r, ts) + rest;
    EncodedHolds(prefix, r, ts, rest);
    if ts == 18 {
      Layout18(data, |prefix|, r);
    } else {
      Layout16(data, |prefix|, r);
    }
  }

  /** The heuristic sees the first descriptor, wherever it stands. */
  lemma {:induction false} LayoutOfStream(prefix: seq<byte>, xs: seq<Piece>, ts: nat)
    requires IsLayout(ts) && AllWellFormed(xs, ts)
    ensures var first, answer := FirstDescriptor(xs), LayoutFrom(prefix + EncodeAll(xs, ts), |prefix|);
      && (first.None? ==> answer == 16)
      && (first.Some? && ts == 18 ==> (answer == 18 <==> 1 <= first.value.fid.lbn < 0x1_0000))
      && (first.Some? && ts == 16 ==> (answer == 16 <==> first.value.fid.lbn < 0x1_0000 || first.value.partition > 0))
    decreases |xs|
  {
    var data := prefix + EncodeAll(xs, ts);
    if xs != [] {
      assert WellFormed(xs[0], ts);
      var head, rest := EncodePiece(xs[0], ts), EncodeAll(xs[1..], ts);
      assert data == prefix + head + rest;
      match xs[0]
      case Padding(b) =>
        PaddingAt(prefix, b, rest);
        LayoutOfStream(prefix + head, xs[1..], ts);
        if |prefix| + 28 > |data| {
          TooShort(Place([], 512, 0), xs, ts);
        }
      case Encoded(r) =>
        LayoutOfFirst(prefix, r, ts, rest);
    }
  }

  /** The round trip: an encoded directory lists exactly its children whenever its layout is detected. */
  lemma RoundTrip(p: Place, xs: seq<Piece>, ts: nat)
    requires IsLayout(ts) && AllWellFormed(xs, ts)
    requires LayoutFrom(EncodeAll(xs, ts), 0) == ts
    ensures Children(p, EncodeAll(xs, ts)) == Expected(p, xs)
  {
    ParseStream(p, [], xs, ts);
    assert [] + EncodeAll(xs, ts) == EncodeAll(xs, ts);
  }

  lemma {:induction false} SameInBoth(xs: seq<Piece>, ts: nat)
    requires IsLayout(ts) && AllWellFormed(xs, ts) && FirstDescriptor(xs).None?
    ensures AllWellFormed(xs, 16) && EncodeAll(xs, 16) == EncodeAll(xs, ts)
  {
    if xs != [] {
      assert WellFormed(xs[0], ts) && WellFormed(xs[0], 16);
      SameInBoth(xs[1..], ts);
      assert forall i :: 0 < i < |xs| ==> xs[i] == xs[1..][i - 1];
    }
  }

  lemma {:induction false} NothingExpected(p: Place, xs: seq<Piece>)
    requires FirstDescriptor(xs).None?
    ensures Expected(p, xs) == []
  {
    if xs != [] {
      NothingExpected(p, xs[1..]);
    }
  }

  /** Padding alone lists nothing in either layout. */
  lemma NoDescriptor(p: Place, xs: seq<Piece>, ts: nat)
    requires IsLayout(ts) && AllWellFormed(xs, ts) && FirstDescriptor(xs).None?
    ensures Children(p, EncodeAll(xs, ts)) == Expected(p, xs) == []
  {
    SameInBoth(xs, ts);
    LayoutOfStream([], xs, 16);
    assert [] + EncodeAll(xs, 16) == EncodeAll(xs, 16);
    RoundTrip(p, xs, 16);
    NothingExpected(p, xs);
  }

  /** When that is: the block number of the first descriptor decides. */
  lemma RoundTripWhenPlausible(p: Place, xs: seq<Piece>, ts: nat)
    requires IsLayout(ts) && AllWellFormed(xs, ts)
    requires FirstDescriptor(xs).Some? ==>
      var r := FirstDescriptor(xs).value;
      if ts == 18 then 1 <= r.fid.lbn < 0x1_0000 else r.fid.lbn < 0x1_0000 || r.partition > 0
    ensures Children(p, EncodeAll(xs, ts)) == Expected(p, xs)
  {
    LayoutOfStream([], xs, ts);
    assert [] + EncodeAll(xs, ts) == EncodeAll(xs, ts);
    if FirstDescriptor(xs).Some? {
      RoundTrip(p, xs, ts);
    } else {
      NoDescriptor(p, xs, ts);
    }
  }

  // ----- a single descriptor, and what a wrong layout makes of it -----

  lemma Alone(s: seq<byte>)
    ensures [] + s + [] == s
  {
  }

  /** A descriptor that is all the data there is. */
  lemma EncodedAlone(r: Record, ts: nat)
    requires IsLayout(ts) && Encodable(r, ts)
    ensures var data := Encode(r, ts);
      Holds(data, 0, r, ts) && Le16(data, 0) == TAG_FID && |data| == Align4(16 + Le16(data, 10))
  {
    var data := Encode(r, ts);
    Alone(data);
    EncodedHolds([], r, ts, []);
    TagReadBack(data, 0, r, ts);
  }

  /** Data that one descriptor fills lists what that descriptor lists. */
  lemma OneDescriptor(p: Place, data: seq<byte>)
    requires Le16(data, 0) == TAG_FID && |data| == Align4(16 + Le16(data, 10)) && LayoutFrom(data, 0) + 20 <= |data|
    ensures Children(p, data) == Listed(p, FidAt(data, 0, LayoutFrom(data, 0)))
  {
    var ts := LayoutFrom(data, 0);
    assert Advance(data, 0, ts) == |data|;
    assert ListFrom(p, data, ts, |data|) == [];
  }

  /** Two descriptors that list differently, by directory bit or by block number. */
  lemma DifferentlyListed(p: Place, f: Fid, g: Fid)
    requires !IsParent(f) && p.start + f.lbn <= U32_MAX
    requires IsDirectory(f) != IsDirectory(g) || f.lbn != g.lbn
    ensures Listed(p, f) != Listed(p, g)
  {
  }

  lemma VersionByte(r: Record)
    requires Encodable(r, 18)
    ensures Encode(r, 18)[16] == r.fileVersion[0]
  {
    assert Encode(r, 18)[16..18] == r.fileVersion;
  }

  /**
   * When the heuristic errs, the version field is read as characteristics: a
   * directory's descriptor with version 1 is listed right exactly when its
   * block number is in 1..65535.
   */
  lemma VersionReadAsCharacteristics(p: Place, r: Record)
    requires Encodable(r, 18) && r.fileVersion == [1, 0]
    requires IsDirectory(r.fid) && !IsParent(r.fid) && p.start + r.fid.lbn <= U32_MAX
    ensures Children(p, Encode(r, 18)) == Listed(p, r.fid) <==> 1 <= r.fid.lbn < 0x1_0000
  {
    var data := Encode(r, 18);
    EncodedAlone(r, 18);
    OneDescriptor(p, data);
    assert LayoutFrom(data, 0) == 18 <==> 1 <= r.fid.lbn < 0x1_0000 by {
      Layout18(data, 0, r);
    }
    if LayoutFrom(data, 0) == 18 {
      assert FidAt(data, 0, 18) == r.fid by {
        ReadBack(data, 0, r, 18);
      }
    } else {
      VersionByte(r);
      DifferentlyListed(p, r.fid, FidAt(data, 0, 16));
    }
  }

  /**
   * In the other layout the address is read two bytes too late: a child's
   * descriptor is listed right exactly when its block number is below 65536 or
   * its partition is not 0.
   */
  lemma AddressReadTooLate(p: Place, r: Record)
    requires Encodable(r, 16) && !IsParent(r.fid) && p.start + r.fid.lbn <= U32_MAX
    ensures Children(p, Encode(r, 16)) == Listed(p, r.fid) <==> r.fid.lbn < 0x1_0000 || r.partition > 0
  {
    var data := Encode(r, 16);
    EncodedAlone(r, 16);
    assert LayoutFrom(data, 0) == 16 <==> r.fid.lbn < 0x1_0000 || r.partition > 0 by {
      Layout16(data, 0, r);
    }
    if LayoutFrom(data, 0) == 16 {
      OneDescriptor(p, data);
      assert FidAt(data, 0, 16) == r.fid by {
        ReadBack(data, 0, r, 16);
      }
    } else if |data| < 38 {
      assert Children(p, data) == [];
    } else {
      OneDescriptor(p, data);
      assert Le32(data, 24) == r.fid.lbn / 0x1_0000 by {
        LayoutFields(data, 0, r, 16);
      }
      DifferentlyListed(p, r.fid, FidAt(data, 0, 18));
    }
  }

  // ----- whole directories in the wrong layout -----

  predicate VersionOne(xs: seq<Piece>, ts: nat)
    requires IsLayout(ts) && AllWellFormed(xs, ts)
  {
    forall i :: 0 <= i < |xs| && xs[i].Encoded? ==> xs[i].r.fileVersion == [1, 0]
  }

  /** Read in the other layout, a descriptor of version 1 is a nameless child that is no directory. */
  lemma MisreadFields(data: seq<byte>, off: nat, r: Record)
    requires Encodable(r, 18) && r.fileVersion == [1, 0] && Holds(data, off, r, 18)
    requires data[off + 16..off + 18] == r.fileVersion
    ensures off + 36 <= |data| && Le16(data, off) == TAG_FID && Advance(data, off, 16) == |Encode(r, 18)|
    ensures var f := FidAt(data, off, 16); !IsParent(f) && !IsDirectory(f) && f.name == []
  {
    TagReadBack(data, off, r, 18);
    assert data[off + 16] == data[off + 16..off + 18][0] && data[off + 17] == data[off + 16..off + 18][1];
  }

  lemma MisreadDescriptor(p: Place, prefix: seq<byte>, r: Record, rest: seq<byte>)
    requires Encodable(r, 18) && r.fileVersion == [1, 0]
    ensures var head := Encode(r, 18);
      var data := prefix + head + rest;
      && |prefix| + 36 <= |data|
      && !IsDirectory(FidAt(data, |prefix|, 16)) && FidAt(data, |prefix|, 16).name == []
      && ListFrom(p, data, 16, |prefix|) ==
         Listed(p, FidAt(data, |prefix|, 16)) + ListFrom(p, data, 16, |prefix + head|)
  {
    var head := Encode(r, 18);
    EncodedHolds(prefix, r, 18, rest);
    assert head[16..18] == r.fileVersion;
    Shifted(prefix, head, rest, 16, 18);
    MisreadFields(prefix + head + rest, |prefix|, r);
  }

  predicate IsNameless(es: seq<DirEntry>) {
    forall i :: 0 <= i < |es| ==> !es[i].isDir && es[i].name == []
  }

  lemma {:induction false} MisreadStream(p: Place, prefix: seq<byte>, xs: seq<Piece>)
    requires AllWellFormed(xs, 18) && VersionOne(xs, 18)
    ensures IsNameless(ListFrom(p, prefix + EncodeAll(xs, 18), 16, |prefix|))
    decreases |xs|
  {
    var data := prefix + EncodeAll(xs, 18);
    if xs != [] && |prefix| + 36 <= |data| {
      assert WellFormed(xs[0], 18);
      var head, rest := EncodePiece(xs[0], 18), EncodeAll(xs[1..], 18);
      assert data == prefix + head + rest;
      MisreadStream(p, prefix + head, xs[1..]);
      match xs[0]
      case Padding(b) =>
        StepPadding(p, prefix, b, rest, 16);
      case Encoded(r) =>
        MisreadDescriptor(p, prefix, r, rest);
    }
  }

  /**
   * A whole directory of version-1 descriptors with at least one child that is
   * a directory or has a name is listed right exactly when the block number of
   * its first descriptor is in 1..65535.
   */
  lemma ListedRightExactly(p: Place, xs: seq<Piece>)
    requires AllWellFormed(xs, 18) && VersionOne(xs, 18) && !IsNameless(Expected(p, xs))
    ensures FirstDescriptor(xs).Some?
    ensures Children(p, EncodeAll(xs, 18)) == Expected(p, xs) <==> 1 <= FirstDescriptor(xs).value.fid.lbn < 0x1_0000
  {
    if FirstDescriptor(xs).None? {
      NothingExpected(p, xs);
    }
    LayoutOfStream([], xs, 18);
    MisreadStream(p, [], xs);
    assert [] + EncodeAll(xs, 18) == EncodeAll(xs, 18);
    if LayoutFrom(EncodeAll(xs, 18), 0) == 18 {
      RoundTrip(p, xs, 18);
    }
  }
}
