/** File Identifier Descriptors (ECMA-167 part 4, section 14.4) in a directory's data. */
module Fids {
  import opened Bytes
  import opened Tags
  import opened FileEntry

  /** Where the body of a descriptor starts: right behind the tag, or behind two more bytes. */
  predicate IsLayout(ts: nat) {
    ts == 16 || ts == 18
  }

  datatype Fid = Fid(chars: byte, lbn: U32, name: seq<byte>)

  datatype DirEntry = DirEntry(name: seq<byte>, isDir: bool, size: U64, feLba: U32)

  predicate IsParent(f: Fid) {
    f.chars / 8 % 2 == 1
  }

  predicate IsDirectory(f: Fid) {
    f.chars / 2 % 2 == 1
  }

  // ----- the layout heuristic -----

  /** The first descriptor decides: 16 when the block number at +22 is plausible, else 18 when the one at +24 is. */
  function LayoutFrom(data: seq<byte>, off: nat): (ts: nat)
    ensures IsLayout(ts)
    decreases |data| - off
  {
    if off + 28 > |data| then 16
    else if Le16(data, off) != TAG_FID then LayoutFrom(data, off + 4)
    else if Le32(data, off + 22) < 0x1_0000 then 16
    else if Le32(data, off + 24) < 0x1_0000 then 18
    else 16
  }

  method DetectFidTagSize(data: seq<byte>) returns (ts: nat)
    ensures ts == LayoutFrom(data, 0)
  {
    var off: nat := 0;
    while off + 28 <= |data|
      invariant LayoutFrom(data, 0) == LayoutFrom(data, off)
      decreases |data| - off
    {
      if Le16(data, off) == TAG_FID {
        var lbn16 := if off + 26 <= |data| then Le32(data, off + 22) else U32_MAX;
        var lbn18 := if off + 28 <= |data| then Le32(data, off + 24) else U32_MAX;
        if lbn16 < 0x1_0000 {
          return 16;
        }
        if lbn18 < 0x1_0000 {
          return 18;
        }
        return 16;
      }
      off := off + 4;
    }
    return 16;
  }

  // ----- the descriptors -----

  function Align4(n: nat): nat {
    (n + 3) / 4 * 4
  }

  /** How far the cursor moves over the descriptor at `off`. */
  function Advance(data: seq<byte>, off: nat, ts: nat): (n: nat)
    ensures n >= ts + 20
  {
    Max(Align4(16 + Le16(data, off + 10)), ts + 20)
  }

  function NameAt(data: seq<byte>, off: nat, ts: nat): seq<byte>
    requires IsLayout(ts) && off + ts + 20 <= |data|
  {
    var from := off + ts + 20 + Le16(data, off + ts + 18);
    var to := Min(from + data[off + ts + 1], |data|);
    if to > from then data[from..to] else []
  }

  function FidAt(data: seq<byte>, off: nat, ts: nat): Fid
    requires IsLayout(ts) && off + ts + 20 <= |data|
  {
    Fid(data[off + ts], Le32(data, off + ts + 6), NameAt(data, off, ts))
  }

  /** A child is listed unless it is the parent or its address leaves `u32`. */
  function Listed(p: Place, f: Fid): seq<DirEntry> {
    if IsParent(f) || p.start + f.lbn > U32_MAX then []
    else
      var size := InfoLenAt(p, p.start + f.lbn);
      [DirEntry(f.name, IsDirectory(f), if size.Some? then size.value else 0, p.start + f.lbn)]
  }

  /** The children listed from `off` on; what is no descriptor is stepped over in fours. */
  function ListFrom(p: Place, data: seq<byte>, ts: nat, off: nat): seq<DirEntry>
    requires IsLayout(ts)
    decreases |data| - off
  {
    if off + ts + 20 > |data| then []
    else if Le16(data, off) != TAG_FID then ListFrom(p, data, ts, off + 4)
    else if off + Advance(data, off, ts) > |data| then []
    else Listed(p, FidAt(data, off, ts)) + ListFrom(p, data, ts, off + Advance(data, off, ts))
  }

  /** The children a directory's data lists. */
  function Children(p: Place, data: seq<byte>): seq<DirEntry> {
    ListFrom(p, data, LayoutFrom(data, 0), 0)
  }

  method ReadFid(data: seq<byte>, off: nat, ts: nat) returns (f: Fid)
    requires IsLayout(ts) && off + ts + 20 <= |data|
    ensures f == FidAt(data, off, ts)
  {
    var chars := data[off + ts];
    var idLen := data[off + ts + 1];
    if off + ts + 10 > |data| {
      assert false; // the loop guard leaves room for the block number
    }
    var lbn := Le32(data, off + ts + 6);
    if off + ts + 20 > |data| {
      assert false; // and for the implementation use length
    }
    var implUseLen := Le16(data, off + ts + 18);
    var idStart := off + ts + 20 + implUseLen;
    var idEnd := Min(idStart + idLen as int, |data|);
    var name := if idEnd > idStart then data[idStart..idEnd] else [];
    f := Fid(chars, lbn, name);
  }

  method ListChild(p: Place, f: Fid, before: seq<DirEntry>) returns (entries: seq<DirEntry>)
    ensures entries == before + Listed(p, f)
  {
    entries := before;
    if f.chars / 8 % 2 == 0 {
      var isDir := f.chars / 2 % 2 != 0;
      var feLba := p.start + f.lbn;
      if feLba <= U32_MAX {
        var size := InfoLenAt(p, feLba);
        entries := entries + [DirEntry(f.name, isDir, if size.Some? then size.value else 0, feLba)];
      }
    }
  }

  lemma ListNext(p: Place, data: seq<byte>, ts: nat, off: nat, before: seq<DirEntry>)
    requires IsLayout(ts) && off + ts + 20 <= |data| && Le16(data, off) == TAG_FID
    requires off + Advance(data, off, ts) <= |data|
    ensures before + ListFrom(p, data, ts, off) ==
      before + Listed(p, FidAt(data, off, ts)) + ListFrom(p, data, ts, off + Advance(data, off, ts))
  {
  }

  method ParseFids(p: Place, data: seq<byte>) returns (entries: seq<DirEntry>)
    ensures entries == Children(p, data)
  {
    var ts := DetectFidTagSize(data);
    var minFid := ts + 20;
    entries := [];
    var off: nat := 0;
    while off + minFid <= |data|
      invariant ListFrom(p, data, ts, 0) == entries + ListFrom(p, data, ts, off)
      decreases |data| - off
    {
      if Le16(data, off) != TAG_FID {
        off := off + 4;
        continue;
      }
      var advance := Max(Align4(16 + Le16(data, off + 10)), minFid);
      if off + advance > |data| {
        break;
      }
      ListNext(p, data, ts, off, entries);
      var fid := ReadFid(data, off, ts);
      entries := ListChild(p, fid, entries);
      off := off + Max(advance, 4);
    }
  }

  // ----- bounds -----

  /** The offsets of the descriptors taken from `off` on; anything else is stepped over in fours. */
  function Windows(data: seq<byte>, ts: nat, off: nat): (at: seq<nat>)
    requires IsLayout(ts)
    ensures forall i :: 0 <= i < |at| ==> off <= at[i] && at[i] + Advance(data, at[i], ts) <= |data|
    decreases |data| - off
  {
    if off + ts + 20 > |data| then []
    else if Le16(data, off) != TAG_FID then Windows(data, ts, off + 4)
    else if off + Advance(data, off, ts) > |data| then []
    else [off] + Windows(data, ts, off + Advance(data, off, ts))
  }

  /** On arbitrary bytes the descriptors taken lie in the data and never overlap. */
  lemma {:induction false} WindowsDisjoint(data: seq<byte>, ts: nat, off: nat)
    requires IsLayout(ts)
    ensures var at := Windows(data, ts, off);
      forall i, j :: 0 <= i < j < |at| ==> at[i] + Advance(data, at[i], ts) <= at[j]
    ensures off <= |data| ==> off + 36 * |Windows(data, ts, off)| <= |data|
    ensures off > |data| ==> Windows(data, ts, off) == []
    decreases |data| - off
  {
    if off + ts + 20 <= |data| {
      if Le16(data, off) != TAG_FID {
        WindowsDisjoint(data, ts, off + 4);
      } else if off + Advance(data, off, ts) <= |data| {
        WindowsDisjoint(data, ts, off + Advance(data, off, ts));
      }
    }
  }

  /** Each descriptor taken lists at most one child. */
  lemma {:induction false} ListedAtMostOnce(p: Place, data: seq<byte>, ts: nat, off: nat)
    requires IsLayout(ts)
    ensures |ListFrom(p, data, ts, off)| <= |Windows(data, ts, off)|
    decreases |data| - off
  {
    if off + ts + 20 <= |data| {
      if Le16(data, off) != TAG_FID {
        ListedAtMostOnce(p, data, ts, off + 4);
      } else if off + Advance(data, off, ts) <= |data| {
        ListedAtMostOnce(p, data, ts, off + Advance(data, off, ts));
      }
    }
  }

  /** A directory lists at most one child per 36 bytes of data. */
  lemma ChildrenBounded(p: Place, data: seq<byte>)
    ensures 36 * |Children(p, data)| <= |data|
  {
    var ts := LayoutFrom(data, 0);
    WindowsDisjoint(data, ts, 0);
    ListedAtMostOnce(p, data, ts, 0);
  }

  // ----- what is listed -----

  /** The descriptor at `off` stands for this child: no parent, its fields in place, its name cut at the data's end. */
  predicate Describes(p: Place, data: seq<byte>, off: nat, ts: nat, c: DirEntry)
    requires IsLayout(ts) && off + ts + 20 <= |data|
  {
    var chars, length := data[off + ts], data[off + ts + 1];
    var from := off + ts + 20 + Le16(data, off + ts + 18);
    var size := InfoLenAt(p, c.feLba);
    && chars / 8 % 2 == 0
    && c.isDir == (chars / 2 % 2 == 1)
    && c.feLba == p.start + Le32(data, off + ts + 6)
    && c.size == (if size.Some? then size.value else 0)
    && (if from + length <= |data| then c.name == data[from..from + length]
        else c.name == if from <= |data| then data[from..] else [])
  }

  lemma NameIsCut(data: seq<byte>, off: nat, ts: nat)
    requires IsLayout(ts) && off + ts + 20 <= |data|
    ensures var length, from := data[off + ts + 1], off + ts + 20 + Le16(data, off + ts + 18);
      NameAt(data, off, ts) ==
        if from + length <= |data| then data[from..from + length] else if from <= |data| then data[from..] else []
  {
  }

  lemma ListedFields(p: Place, f: Fid, c: DirEntry)
    ensures var size := InfoLenAt(p, c.feLba);
      c in Listed(p, f) <==>
        && !IsParent(f) && c.isDir == IsDirectory(f) && c.feLba == p.start + f.lbn
        && c.size == (if size.Some? then size.value else 0) && c.name == f.name
  {
    if !IsParent(f) && p.start + f.lbn <= U32_MAX {
      var size := InfoLenAt(p, p.start + f.lbn);
      var d := DirEntry(f.name, IsDirectory(f), if size.Some? then size.value else 0, p.start + f.lbn);
      assert Listed(p, f) == [d];
      assert c in Listed(p, f) <==> c == d;
    }
  }

  lemma ListedDescribes(p: Place, data: seq<byte>, off: nat, ts: nat, c: DirEntry)
    requires IsLayout(ts) && off + ts + 20 <= |data|
    ensures c in Listed(p, FidAt(data, off, ts)) <==> Describes(p, data, off, ts, c)
  {
    NameIsCut(data, off, ts);
    ListedFields(p, FidAt(data, off, ts), c);
  }

  /** What the descriptor at an offset adds to the listing. */
  function ListedAt(p: Place, data: seq<byte>, ts: nat, off: nat): seq<DirEntry>
    requires IsLayout(ts)
  {
    if off + ts + 20 <= |data| then Listed(p, FidAt(data, off, ts)) else []
  }

  /** What the descriptors at these offsets add, one after the other. */
  function ListedOf(p: Place, data: seq<byte>, ts: nat, at: seq<nat>): seq<DirEntry>
    requires IsLayout(ts)
  {
    if at == [] then [] else ListedAt(p, data, ts, at[0]) + ListedOf(p, data, ts, at[1..])
  }

  lemma ListedOfNext(p: Place, data: seq<byte>, ts: nat, off: nat, rest: seq<nat>, listed: seq<DirEntry>)
    requires IsLayout(ts) && ListedOf(p, data, ts, rest) == listed
    ensures ListedOf(p, data, ts, [off] + rest) == ListedAt(p, data, ts, off) + listed
  {
    assert ([off] + rest)[1..] == rest;
  }

  lemma ListFromNext(p: Place, data: seq<byte>, ts: nat, off: nat, next: nat)
    requires IsLayout(ts) && off + ts + 20 <= |data| && Le16(data, off) == TAG_FID
    requires next == off + Advance(data, off, ts) <= |data|
    ensures ListFrom(p, data, ts, off) == ListedAt(p, data, ts, off) + ListFrom(p, data, ts, next)
    ensures Windows(data, ts, off) == [off] + Windows(data, ts, next)
  {
  }

  lemma ListFromSkip(p: Place, data: seq<byte>, ts: nat, off: nat)
    requires IsLayout(ts) && off + ts + 20 <= |data| && Le16(data, off) != TAG_FID
    ensures ListFrom(p, data, ts, off) == ListFrom(p, data, ts, off + 4)
    ensures Windows(data, ts, off) == Windows(data, ts, off + 4)
  {
  }

  lemma ListFromEnd(p: Place, data: seq<byte>, ts: nat, off: nat)
    requires IsLayout(ts)
    requires off + ts + 20 > |data| || (Le16(data, off) == TAG_FID && off + Advance(data, off, ts) > |data|)
    ensures ListFrom(p, data, ts, off) == [] && Windows(data, ts, off) == []
  {
  }

  lemma {:induction false} ListedInOrder(p: Place, data: seq<byte>, ts: nat, off: nat)
    requires IsLayout(ts)
    ensures ListedOf(p, data, ts, Windows(data, ts, off)) == ListFrom(p, data, ts, off)
    decreases |data| - off
  {
    if off + ts + 20 <= |data| && Le16(data, off) != TAG_FID {
      ListedInOrder(p, data, ts, off + 4);
      ListFromSkip(p, data, ts, off);
    } else if off + ts + 20 <= |data| && off + Advance(data, off, ts) <= |data| {
      var next := off + Advance(data, off, ts);
      ListedInOrder(p, data, ts, next);
      ListFromNext(p, data, ts, off, next);
      ListedOfNext(p, data, ts, off, Windows(data, ts, next), ListFrom(p, data, ts, next));
    } else {
      ListFromEnd(p, data, ts, off);
    }
  }

  /** A descriptor adds the one child it stands for, or nothing. */
  lemma AddedByOne(p: Place, data: seq<byte>, ts: nat, off: nat, c: DirEntry)
    requires IsLayout(ts) && off + ts + 20 <= |data|
    ensures |ListedAt(p, data, ts, off)| <= 1
    ensures c in ListedAt(p, data, ts, off) <==> Describes(p, data, off, ts, c)
  {
    ListedDescribes(p, data, off, ts, c);
  }

  /** On arbitrary bytes a directory lists, in order, what its accepted descriptors add one by one. */
  lemma ChildrenFromDescriptors(p: Place, data: seq<byte>)
    ensures Children(p, data) == ListedOf(p, data, LayoutFrom(data, 0), Windows(data, LayoutFrom(data, 0), 0))
  {
    ListedInOrder(p, data, LayoutFrom(data, 0), 0);
  }

  // ----- where the descriptors are -----

  /** How far the descriptor at `off` reaches: its CRC length rounded up to four, but at least its fixed part. */
  function EndOf(data: seq<byte>, ts: nat, off: nat): nat {
    off + Max((16 + Le16(data, off + 10) + 3) / 4 * 4, ts + 20)
  }

  /** Room for a descriptor, but another tag. */
  predicate IsFiller(data: seq<byte>, ts: nat, off: nat) {
    off + ts + 20 <= |data| && Le16(data, off) != 257
  }

  predicate IsTaken(data: seq<byte>, ts: nat, off: nat) {
    off + ts + 20 <= |data| && Le16(data, off) == 257 && EndOf(data, ts, off) <= |data|
  }

  /** No room for a descriptor, or one that reaches past the data. */
  predicate IsLast(data: seq<byte>, ts: nat, off: nat) {
    off + ts + 20 > |data| || (Le16(data, off) == 257 && EndOf(data, ts, off) > |data|)
  }

  /** Filler from `from` on, in fours, up to `to`. */
  ghost predicate IsGap(data: seq<byte>, ts: nat, from: nat, to: nat) {
    from <= to && (to - from) % 4 == 0 && forall o :: from <= o < to && (o - from) % 4 == 0 ==> IsFiller(data, ts, o)
  }

  /** Descriptors one behind the other with filler between them, and behind them filler up to where no more can be. */
  ghost predicate AreWindows(data: seq<byte>, ts: nat, off: nat, at: seq<nat>)
    decreases |at|
  {
    if at == [] then
      exists to :: IsGap(data, ts, off, to) && IsLast(data, ts, to)
    else
      && IsGap(data, ts, off, at[0]) && IsTaken(data, ts, at[0])
      && AreWindows(data, ts, EndOf(data, ts, at[0]), at[1..])
  }

  lemma GapNext(data: seq<byte>, ts: nat, from: nat, to: nat)
    requires IsFiller(data, ts, from)
    ensures IsGap(data, ts, from, to) && from < to <==> IsGap(data, ts, from + 4, to)
  {
  }

  /** A gap does not begin behind filler it could begin with. */
  lemma GapBegins(data: seq<byte>, ts: nat, from: nat, to: nat)
    requires IsGap(data, ts, from, to)
    ensures from == to || IsFiller(data, ts, from)
  {
  }

  lemma WindowsSkip(data: seq<byte>, ts: nat, off: nat, at: seq<nat>)
    requires IsFiller(data, ts, off)
    ensures AreWindows(data, ts, off, at) <==> AreWindows(data, ts, off + 4, at)
  {
    if at == [] {
      forall to
        ensures IsGap(data, ts, off, to) && IsLast(data, ts, to) <==>
          IsGap(data, ts, off + 4, to) && IsLast(data, ts, to)
      {
        GapNext(data, ts, off, to);
      }
    } else {
      GapNext(data, ts, off, at[0]);
    }
  }

  lemma WindowsBegin(data: seq<byte>, ts: nat, off: nat, at: seq<nat>)
    requires !IsFiller(data, ts, off)
    ensures AreWindows(data, ts, off, at) <==>
      if at == [] then IsLast(data, ts, off)
      else at[0] == off && IsTaken(data, ts, off) && AreWindows(data, ts, EndOf(data, ts, off), at[1..])
  {
    assert IsGap(data, ts, off, off);
    if AreWindows(data, ts, off, at) {
      if at == [] {
        var to :| IsGap(data, ts, off, to) && IsLast(data, ts, to);
        GapBegins(data, ts, off, to);
      } else {
        GapBegins(data, ts, off, at[0]);
      }
    }
  }

  /** The descriptors taken are these, and there is only one such list. */
  lemma {:induction false} WindowsAre(data: seq<byte>, ts: nat, off: nat, at: seq<nat>)
    requires IsLayout(ts)
    ensures Windows(data, ts, off) == at <==> AreWindows(data, ts, off, at)
    decreases |data| - off
  {
    if IsFiller(data, ts, off) {
      WindowsSkip(data, ts, off, at);
      WindowsAre(data, ts, off + 4, at);
    } else {
      WindowsBegin(data, ts, off, at);
      if at != [] && IsTaken(data, ts, off) {
        var next := EndOf(data, ts, off);
        WindowsAre(data, ts, next, at[1..]);
        if at[0] == off {
          assert at == [off] + at[1..];
        }
      }
    }
  }
}
