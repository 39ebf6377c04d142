/** The unused tail of a file's final block, found by a second walk of the same descriptors. */
module Slack {
  import opened Bytes
  import opened FileEntry

  /** The last descriptor that records data, or -1. */
  function LastRecorded(es: seq<Extent>): (k: int)
    ensures -1 <= k < |es| && (k >= 0 ==> Recorded(es[k]))
    ensures forall j :: k < j < |es| ==> !Recorded(es[j])
  {
    if es == [] || Recorded(es[|es| - 1]) then |es| - 1 else LastRecorded(es[..|es| - 1])
  }

  function LastBlockOf(p: Place, e: Extent): nat
    requires ValidPlace(p) && Recorded(e)
  {
    CeilBounds(Length(e), p.bs);
    (p.start + e.lbn + (DivCeil(Length(e), p.bs) - 1)) * p.bs
  }

  function LastIn(p: Place, es: seq<Extent>): Option<nat>
    requires ValidPlace(p)
  {
    var k := LastRecorded(es);
    if k < 0 then None else Some(LastBlockOf(p, es[k]))
  }

  /** The position of the last block the descriptors record, whatever the information length says. */
  function LastBlockPos(p: Place, feLba: nat): Option<nat>
    requires ValidPlace(p)
  {
    match EntryAt(p, feLba)
    case None => None
    case Some(e) => if InExtents(e) then LastIn(p, ExtentsOf(e)) else None
  }

  lemma LastInNext(p: Place, es: seq<Extent>, k: nat)
    requires ValidPlace(p) && k < |es|
    ensures LastIn(p, es[..k + 1]) == if Recorded(es[k]) then Some(LastBlockOf(p, es[k])) else LastIn(p, es[..k])
  {
    assert es[..k + 1][..k] == es[..k];
    assert es[..k + 1][k] == es[k];
  }

  method FeLastBlockPos(p: Place, feLba: U32) returns (last: Option<nat>)
    requires ValidPlace(p)
    ensures last == LastBlockPos(p, feLba)
  {
    var read := ReadBlock(p.image, p.bs, feLba);
    if read.Err? {
      return None;
    }
    var entry := EntryOf(read.value);
    if entry.None? {
      return None;
    }
    var area := entry.value.area;
    var stride := 0;
    if entry.value.alloc == ALLOC_SHORT {
      stride := 8;
    } else if entry.value.alloc == ALLOC_LONG {
      stride := 16;
    } else {
      return None;
    }
    last := None;
    ghost var es := Descriptors(area, stride);
    ghost var k := 0;
    var pos: nat := 0;
    LastDescriptor(area, stride, 0, 0);
    while pos + stride <= |area|
      invariant AtDescriptor(area, stride, k, pos) && k <= |es|
      invariant last == LastIn(p, es[..k])
      decreases |area| - pos
    {
      NextDescriptor(area, stride, k, pos);
      LastInNext(p, es, k);
      var e := Extent(Le32(area, pos), Le32(area, pos + 4));
      if Recorded(e) {
        last := Some(LastBlockOf(p, e));
      }
      pos := pos + stride;
      k := k + 1;
    }
    LastDescriptor(area, stride, k, pos);
    assert es[..k] == es;
  }

  function Nonzero(s: seq<byte>): (n: nat)
    ensures n <= |s|
  {
    if s == [] then 0 else Nonzero(s[..|s| - 1]) + if s[|s| - 1] != 0 then 1 else 0
  }

  function SlackBytes(infoLen: nat, bs: nat): nat
    requires bs > 0
  {
    (bs - infoLen % bs) % bs
  }

  datatype SlackCount = SlackCount(nonzero: nat, slack: nat)

  /** The bytes of a block from `infoLen % bs` on. */
  function TailOf(p: Place, pos: nat, infoLen: nat): Option<SlackCount>
    requires ValidPlace(p)
  {
    var block := ReadExact(p.image, pos, p.bs);
    if block.Err? then None
    else Some(SlackCount(Nonzero(block.value[infoLen % p.bs..]), SlackBytes(infoLen, p.bs)))
  }

  function SlackOf(p: Place, feLba: nat): Option<SlackCount>
    requires ValidPlace(p)
  {
    match InfoLenAt(p, feLba)
    case None => None
    case Some(infoLen) =>
      if infoLen == 0 || SlackBytes(infoLen, p.bs) == 0 then None
      else
        match LastBlockPos(p, feLba)
        case None => None
        case Some(pos) => TailOf(p, pos, infoLen)
  }

  method CountNonzero(tail: seq<byte>) returns (n: nat)
    ensures n == Nonzero(tail)
  {
    n := 0;
    for i := 0 to |tail|
      invariant n == Nonzero(tail[..i])
    {
      assert tail[..i + 1][..i] == tail[..i];
      if tail[i] != 0 {
        n := n + 1;
      }
    }
    assert tail[..|tail|] == tail;
  }

  method CountTail(p: Place, pos: nat, infoLen: nat) returns (r: Option<SlackCount>)
    requires ValidPlace(p)
    ensures r == TailOf(p, pos, infoLen)
  {
    var block := ReadExact(p.image, pos, p.bs);
    if block.Err? {
      return None;
    }
    var nonzero := CountNonzero(block.value[infoLen % p.bs..]);
    return Some(SlackCount(nonzero, SlackBytes(infoLen, p.bs)));
  }

  method FeSlackNonzero(p: Place, feLba: U32) returns (r: Option<SlackCount>)
    requires ValidPlace(p)
    ensures r == SlackOf(p, feLba)
  {
    var infoLen := InfoLenAt(p, feLba);
    if infoLen.None? {
      return None;
    }
    var slack := SlackBytes(infoLen.value, p.bs);
    if infoLen.value == 0 || slack == 0 {
      return None;
    }
    var pos := FeLastBlockPos(p, feLba);
    if pos.None? {
      return None;
    }
    r := CountTail(p, pos.value, infoLen.value);
  }

  // ----- arithmetic of blocks and offsets -----

  lemma AtLeastOne(d: int, bs: nat)
    requires d >= 1
    ensures d * bs >= bs
  {
  }

  lemma OffsetModulo(q: int, off: nat, bs: nat)
    requires off < bs
    ensures (q * bs + off) % bs == off
  {
    var v := q * bs + off;
    var p := v / bs;
    assert v == p * bs + v % bs;
    assert (q - p) * bs == q * bs - p * bs;
    if q > p {
      AtLeastOne(q - p, bs);
    } else if q < p {
      AtLeastOne(p - q, bs);
    }
  }

  lemma SumOfMultiples(a: nat, b: nat, bs: nat)
    requires bs > 0 && a % bs == 0 && b % bs == 0
    ensures (a + b) % bs == 0
  {
    var q, r := a / bs, b / bs;
    assert a == q * bs && b == r * bs;
    assert (q + r) * bs == q * bs + r * bs;
    OffsetModulo(q + r, 0, bs);
  }

  lemma SlackArithmetic(n: nat, bs: nat)
    requires bs > 0 && n > 0 && SlackBytes(n, bs) != 0
    ensures SlackBytes(n, bs) == bs - n % bs && 0 < n % bs
    ensures (n - 1) % bs == n % bs - 1
    ensures (n + SlackBytes(n, bs)) % bs == 0
  {
    var q, r := n / bs, n % bs;
    assert n == q * bs + r;
    if r == 0 {
      OffsetModulo(1, 0, bs);
    } else {
      OffsetModulo(0, bs - r, bs);
      OffsetModulo(q, r - 1, bs);
      assert (q + 1) * bs == q * bs + bs;
      OffsetModulo(q + 1, 0, bs);
    }
  }

  /** A block number and an offset behind it name one position: block by block, and inside the block. */
  lemma SamePosition(a: int, off: nat, b: int, r: nat, bs: nat)
    requires bs > 0 && r < bs
    ensures a * bs + off == b * bs + r <==> a + off / bs == b && off % bs == r
  {
    var q, d := off / bs, a + off / bs - b;
    assert off == q * bs + off % bs;
    assert (a + q) * bs == a * bs + q * bs;
    assert d * bs == (a + q) * bs - b * bs;
    if d > 0 {
      AtLeastOne(d, bs);
    } else if d < 0 {
      AtLeastOne(-d, bs);
    }
  }

  /** Adding `before` keeps the remainder exactly when it is a multiple. */
  lemma SameRemainder(before: nat, off: nat, bs: nat)
    requires bs > 0
    ensures (before + off) % bs == off % bs <==> before % bs == 0
  {
    var x, y, z := before / bs, off / bs, (before + off) / bs;
    assert before == x * bs + before % bs && off == y * bs + off % bs && before + off == z * bs + (before + off) % bs;
    assert (z - y) * bs == z * bs - y * bs && (x + y) * bs == x * bs + y * bs;
    if (before + off) % bs == off % bs {
      OffsetModulo(z - y, 0, bs);
    }
    if before % bs == 0 {
      OffsetModulo(x + y, off % bs, bs);
    }
  }

  lemma SameSpot(a: nat, before: nat, i: nat, b: int, bs: nat)
    requires bs > 0 && before <= i
    ensures a * bs + (i - before) == b * bs + i % bs <==> before % bs == 0 && a + (i - before) / bs == b
  {
    SamePosition(a, i - before, b, i % bs, bs);
    SameRemainder(before, i - before, bs);
  }

  // ----- where the data ends -----

  /**
   * Of `len` bytes behind `before` others, byte `n - 1` of them all is in the last block, counted
   * from a block boundary.
   */
  predicate EndsAt(before: nat, len: nat, n: nat, bs: nat)
    requires bs > 0
  {
    before % bs == 0 && before + (DivCeil(len, bs) - 1) * bs < n <= before + len
  }

  /**
   * The data ends in the last recorded extent's last block, counted from a
   * block boundary: what a caller can check before trusting the slack.
   */
  predicate EndsInLastBlock(es: seq<Extent>, infoLen: nat, bs: nat)
    requires bs > 0
  {
    var k := LastRecorded(es);
    k >= 0 && EndsAt(Recording(es[..k]), Length(es[k]), infoLen, bs)
  }

  /** The recorded bytes are those before the last recorded extent and its own. */
  lemma {:induction false} RecordingUpToLast(es: seq<Extent>)
    ensures var k := LastRecorded(es);
      Recording(es) == if k < 0 then 0 else Recording(es[..k]) + Length(es[k])
  {
    if es != [] && !Recorded(es[|es| - 1]) {
      var n := |es| - 1;
      RecordingUpToLast(es[..n]);
      var k := LastRecorded(es);
      if k >= 0 {
        assert es[..n][..k] == es[..k];
      }
    }
  }

  lemma {:induction false} ExtentOfLast(es: seq<Extent>, i: nat)
    requires i < Recording(es)
    ensures LastRecorded(es) >= 0
    ensures ExtentOf(es, i) == LastRecorded(es) <==> i >= Recording(es[..LastRecorded(es)])
  {
    RecordingUpToLast(es);
    assert es != [];
    var n := |es| - 1;
    if !Recorded(es[n]) {
      ExtentOfLast(es[..n], i);
      assert es[..n][..LastRecorded(es)] == es[..LastRecorded(es)];
    }
  }

  /** The last of `n` bytes stands where the slack walk takes it to be: in the block it picks, at `(n - 1) % bs`. */
  predicate FoundInPlace(p: Place, es: seq<Extent>, n: nat)
    requires ValidPlace(p) && n > 0
  {
    && LastIn(p, es).Some? && n <= Recording(es)
    && AllPositions(p, es)[n - 1] == LastIn(p, es).value + (n - 1) % p.bs
  }

  /** Descriptor `j` starts at a block boundary of the data and holds byte `i` in the last block of descriptor `k`. */
  predicate InLastBlockOf(es: seq<Extent>, i: nat, j: nat, k: nat, bs: nat)
    requires bs > 0 && j < |es| && k < |es|
  {
    && Recording(es[..j]) % bs == 0 && Recording(es[..j]) <= i
    && es[j].lbn + (i - Recording(es[..j])) / bs == es[k].lbn + DivCeil(Length(es[k]), bs) - 1
  }

  /** The data ends before the last recorded extent, but in a block the two share. */
  predicate EndsInSharedBlock(es: seq<Extent>, n: nat, bs: nat)
    requires bs > 0 && n > 0
  {
    n <= Recording(es) &&
    var j, k := ExtentOf(es, n - 1), LastRecorded(es);
    k >= 0 && j != k && InLastBlockOf(es, n - 1, j, k, bs)
  }

  lemma FoundBy(p: Place, es: seq<Extent>, n: nat)
    requires ValidPlace(p) && 0 < n <= Recording(es)
    ensures LastRecorded(es) >= 0
    ensures FoundInPlace(p, es, n) <==> InLastBlockOf(es, n - 1, ExtentOf(es, n - 1), LastRecorded(es), p.bs)
  {
    var i, j, k := n - 1, ExtentOf(es, n - 1), LastRecorded(es);
    ExtentOfLast(es, i);
    PositionInExtent(p, es, i);
    CeilBounds(Length(es[k]), p.bs);
    var before := Recording(es[..j]);
    SameSpot(p.start + es[j].lbn, before, i, p.start + es[k].lbn + DivCeil(Length(es[k]), p.bs) - 1, p.bs);
  }

  /** An offset below `len` is in the last block exactly when the blocks before it do not reach it. */
  lemma LastBlockOffset(off: nat, len: nat, bs: nat)
    requires bs > 0 && off < len
    ensures off / bs == DivCeil(len, bs) - 1 <==> (DivCeil(len, bs) - 1) * bs <= off
  {
    CeilBounds(len, bs);
    var full, q := DivCeil(len, bs) - 1, off / bs;
    assert off == q * bs + off % bs && (full + 1) * bs == full * bs + bs;
    assert (q - full) * bs == q * bs - full * bs;
    if q > full {
      AtLeastOne(q - full, bs);
    } else if q < full {
      AtLeastOne(full - q, bs);
    }
  }

  lemma EndsAtExactly(before: nat, len: nat, i: nat, bs: nat)
    requires bs > 0 && before <= i < before + len
    ensures EndsAt(before, len, i + 1, bs) <==> before % bs == 0 && (i - before) / bs == DivCeil(len, bs) - 1
  {
    LastBlockOffset(i - before, len, bs);
  }

  lemma NotBefore(before: nat, len: nat, n: nat, bs: nat)
    requires bs > 0 && len > 0 && n <= before
    ensures !EndsAt(before, len, n, bs)
  {
    CeilBounds(len, bs);
  }

  /** In the last recorded extent itself that is to end in its last block. */
  lemma EndsExactly(es: seq<Extent>, n: nat, bs: nat)
    requires bs > 0 && 0 < n <= Recording(es) && LastRecorded(es) >= 0
    ensures EndsInLastBlock(es, n, bs) <==>
      ExtentOf(es, n - 1) == LastRecorded(es) && InLastBlockOf(es, n - 1, LastRecorded(es), LastRecorded(es), bs)
  {
    var i, k := n - 1, LastRecorded(es);
    ExtentOfLast(es, i);
    RecordingUpToLast(es);
    if i >= Recording(es[..k]) {
      EndsAtExactly(Recording(es[..k]), Length(es[k]), i, bs);
    } else {
      NotBefore(Recording(es[..k]), Length(es[k]), n, bs);
    }
  }

  /**
   * The slack walk picks the block the data ends in, and the offset in it,
   * exactly when the data ends in the last block of the last recorded extent,
   * or in a block of another extent that happens to be the same.
   */
  lemma SlackLocatedExactly(p: Place, es: seq<Extent>, n: nat)
    requires ValidPlace(p) && n > 0
    ensures FoundInPlace(p, es, n) <==> EndsInLastBlock(es, n, p.bs) || EndsInSharedBlock(es, n, p.bs)
  {
    RecordingUpToLast(es);
    if n <= Recording(es) {
      FoundBy(p, es, n);
      EndsExactly(es, n, p.bs);
    }
  }

  predicate Apart(e: Extent, f: Extent, bs: nat)
    requires bs > 0
  {
    e.lbn + DivCeil(Length(e), bs) <= f.lbn || f.lbn + DivCeil(Length(f), bs) <= e.lbn
  }

  /** No two recorded extents have a block in common. */
  predicate DisjointBlocks(es: seq<Extent>, bs: nat)
    requires bs > 0
  {
    forall i, j :: 0 <= i < j < |es| && Recorded(es[i]) && Recorded(es[j]) ==> Apart(es[i], es[j], bs)
  }

  lemma BlockOfOffset(off: nat, len: nat, bs: nat)
    requires bs > 0 && off < len
    ensures off / bs < DivCeil(len, bs)
  {
    CeilBounds(len, bs);
    var n, q := DivCeil(len, bs), off / bs;
    assert off == q * bs + off % bs && (q - n) * bs == q * bs - n * bs;
    if q > n {
      AtLeastOne(q - n, bs);
    }
  }

  lemma NoSharedBlock(p: Place, es: seq<Extent>, n: nat)
    requires ValidPlace(p) && 0 < n <= Recording(es) && DisjointBlocks(es, p.bs)
    ensures !EndsInSharedBlock(es, n, p.bs)
  {
    var i, j, k := n - 1, ExtentOf(es, n - 1), LastRecorded(es);
    PositionInExtent(p, es, i);
    if k >= 0 && j != k {
      var off := i - Recording(es[..j]);
      BlockOfOffset(off, Length(es[j]), p.bs);
      CeilBounds(Length(es[k]), p.bs);
      assert j < k && Apart(es[j], es[k], p.bs);
    }
  }

  /** On extents that share no block the condition is to end in the last one's last block. */
  lemma SlackLocatedOnDisjoint(p: Place, es: seq<Extent>, n: nat)
    requires ValidPlace(p) && n > 0 && DisjointBlocks(es, p.bs)
    ensures FoundInPlace(p, es, n) <==> EndsInLastBlock(es, n, p.bs)
  {
    SlackLocatedExactly(p, es, n);
    if n <= Recording(es) {
      NoSharedBlock(p, es, n);
    }
  }

  /** One extent over two descriptors: the shared block makes the walk right although the data ends earlier. */
  lemma SharedBlockFound(p: Place)
    requires ValidPlace(p) && p.bs == 512
    ensures var es := [Extent(512, 5), Extent(512, 5)];
      FoundInPlace(p, es, 100) && !EndsInLastBlock(es, 100, 512) && EndsInSharedBlock(es, 100, 512)
  {
    var es := [Extent(512, 5), Extent(512, 5)];
    assert es[..1] == [Extent(512, 5)] && es[..1][..0] == [] && es[..0] == [];
    assert Recording(es[..1]) == 512 && Recording(es) == 1024;
    assert ExtentOf(es, 99) == 0 && LastRecorded(es) == 1;
    SlackLocatedExactly(p, es, 100);
  }

  /** The position of the last byte, when the slack walk finds its block. */
  lemma LastBytePosition(p: Place, es: seq<Extent>, infoLen: nat)
    requires ValidPlace(p) && infoLen > 0 && EndsInLastBlock(es, infoLen, p.bs)
    ensures infoLen <= Recording(es)
    ensures AllPositions(p, es)[infoLen - 1] == LastBlockOf(p, es[LastRecorded(es)]) + (infoLen - 1) % p.bs
  {
    SlackLocatedExactly(p, es, infoLen);
  }

  /** The data the reader returns ends at `fe_last_block_pos + (info_len - 1) mod bs`. */
  lemma DataEndsInLastBlock(p: Place, es: seq<Extent>, n: nat)
    requires ValidPlace(p) && n > 0 && EndsInLastBlock(es, n, p.bs) && DataOf(p, es, n).Some?
    ensures LastIn(p, es).Some? && |DataOf(p, es, n).value| == n
    ensures var at := LastIn(p, es).value + (n - 1) % p.bs;
      at < |p.image| && DataOf(p, es, n).value[n - 1] == p.image[at]
  {
    LastBytePosition(p, es, n);
    DataIsPrefix(p, es, n);
  }

  /** What is counted is the block at `last` behind byte `(n - 1) % bs`, which brings `n` to a block boundary. */
  predicate IsRestOfBlock(p: Place, last: nat, n: nat, count: SlackCount)
    requires ValidPlace(p)
  {
    && n > 0 && last + p.bs <= |p.image|
    && count.nonzero == Nonzero(p.image[last + n % p.bs..last + p.bs])
    && count.nonzero <= count.slack < p.bs
    && (n - 1) % p.bs + 1 + count.slack == p.bs
    && (n + count.slack) % p.bs == 0
  }

  lemma TailIsRest(p: Place, last: nat, n: nat)
    requires ValidPlace(p) && n > 0 && SlackBytes(n, p.bs) != 0 && TailOf(p, last, n).Some?
    ensures IsRestOfBlock(p, last, n, TailOf(p, last, n).value)
  {
    SlackArithmetic(n, p.bs);
    assert p.image[last..last + p.bs][n % p.bs..] == p.image[last + n % p.bs..last + p.bs];
  }

  lemma CountedFrom(p: Place, feLba: nat)
    requires ValidPlace(p) && SlackOf(p, feLba).Some?
    ensures InfoLenAt(p, feLba).Some? && LastBlockPos(p, feLba).Some?
    ensures InfoLenAt(p, feLba).value > 0 && SlackBytes(InfoLenAt(p, feLba).value, p.bs) != 0
    ensures SlackOf(p, feLba) == TailOf(p, LastBlockPos(p, feLba).value, InfoLenAt(p, feLba).value)
  {
  }

  /** The slack counted is the nonzero bytes of the rest of that very block. */
  lemma SlackFollowsData(p: Place, feLba: nat)
    requires ValidPlace(p) && SlackOf(p, feLba).Some?
    ensures InfoLenAt(p, feLba).Some? && LastBlockPos(p, feLba).Some?
    ensures IsRestOfBlock(p, LastBlockPos(p, feLba).value, InfoLenAt(p, feLba).value, SlackOf(p, feLba).value)
  {
    CountedFrom(p, feLba);
    TailIsRest(p, LastBlockPos(p, feLba).value, InfoLenAt(p, feLba).value);
  }

  lemma {:induction false} WholeBlocksSum(es: seq<Extent>, bs: nat)
    requires bs > 0 && forall j :: 0 <= j < |es| && Recorded(es[j]) ==> Length(es[j]) % bs == 0
    ensures Recording(es) % bs == 0
  {
    if es != [] {
      var n := |es| - 1;
      WholeBlocksSum(es[..n], bs);
      if Recorded(es[n]) {
        SumOfMultiples(Recording(es[..n]), Length(es[n]), bs);
      }
    }
  }

  /** Block-multiple extents that sum to the information length end in the last block. */
  lemma WholeBlocksEndInLast(es: seq<Extent>, infoLen: nat, bs: nat)
    requires bs > 0 && infoLen > 0 && infoLen == Recording(es)
    requires forall j :: 0 <= j < LastRecorded(es) && Recorded(es[j]) ==> Length(es[j]) % bs == 0
    ensures EndsInLastBlock(es, infoLen, bs)
  {
    RecordingUpToLast(es);
    var k := LastRecorded(es);
    CeilBounds(Length(es[k]), bs);
    WholeBlocksSum(es[..k], bs);
  }

  // ----- what the count says -----

  lemma {:induction false} NonzeroSome(s: seq<byte>)
    ensures Nonzero(s) > 0 <==> exists i :: 0 <= i < |s| && s[i] != 0
  {
    if s != [] {
      var n := |s| - 1;
      NonzeroSome(s[..n]);
      if Nonzero(s[..n]) > 0 {
        var i :| 0 <= i < n && s[..n][i] != 0;
        assert s[i] != 0;
      } else {
        assert forall i :: 0 <= i < n ==> s[i] == s[..n][i] == 0;
      }
    }
  }

  /** A nonzero byte stands in the image from `from` up to `to`. */
  predicate Residue(image: seq<byte>, from: nat, to: nat) {
    exists q :: from <= q < to && q < |image| && image[q] != 0
  }

  lemma NonzeroResidue(image: seq<byte>, from: nat, to: nat)
    requires from <= to <= |image|
    ensures Nonzero(image[from..to]) > 0 <==> Residue(image, from, to)
  {
    var s := image[from..to];
    NonzeroSome(s);
    if Nonzero(s) > 0 {
      var i :| 0 <= i < |s| && s[i] != 0;
      assert image[from + i] != 0;
    }
    if Residue(image, from, to) {
      var q :| from <= q < to && q < |image| && image[q] != 0;
      assert s[q - from] != 0;
    }
  }

  lemma LastBlockInExtent(p: Place, e: Extent)
    requires ValidPlace(p) && Recorded(e) && Readable(p, e)
    ensures LastBlockOf(p, e) + p.bs <= |p.image|
  {
    var n := DivCeil(Length(e), p.bs);
    CeilBounds(Length(e), p.bs);
    assert (p.start + e.lbn + (n - 1)) * p.bs == (p.start + e.lbn) * p.bs + (n - 1) * p.bs;
    assert (n - 1) * p.bs == n * p.bs - p.bs;
  }

  /** The block the data ends in can be read whenever the data can. */
  lemma LastBlockReadable(p: Place, es: seq<Extent>, n: nat)
    requires ValidPlace(p) && n > 0 && EndsInLastBlock(es, n, p.bs) && DataOf(p, es, n).Some?
    ensures LastIn(p, es).Some? && LastIn(p, es).value + p.bs <= |p.image|
  {
    var k := LastRecorded(es);
    CeilBounds(Length(es[k]), p.bs);
    assert Needed(es, n, k);
    LastBlockInExtent(p, es[k]);
  }

  /** The first byte of the next block. */
  function BlockEnd(pos: nat, bs: nat): nat
    requires bs > 0
  {
    pos - pos % bs + bs
  }

  lemma EndOfLastBlock(b: nat, r: nat, bs: nat)
    requires bs > 0 && r < bs
    ensures BlockEnd(b * bs + r, bs) == b * bs + bs
  {
    OffsetModulo(b, r, bs);
  }

  lemma EndOfExtent(p: Place, e: Extent, r: nat)
    requires ValidPlace(p) && Recorded(e) && r < p.bs
    ensures BlockEnd(LastBlockOf(p, e) + r, p.bs) == LastBlockOf(p, e) + p.bs
  {
    CeilBounds(Length(e), p.bs);
    EndOfLastBlock(p.start + e.lbn + (DivCeil(Length(e), p.bs) - 1), r, p.bs);
  }

  /** Behind a file that fills its last block there is nothing. */
  lemma FullBlock(n: nat, bs: nat)
    requires bs > 0 && n > 0
    ensures SlackBytes(n, bs) == 0 <==> (n - 1) % bs + 1 == bs
  {
    var q, r := n / bs, n % bs;
    assert n == q * bs + r;
    if r == 0 {
      assert q > 0 && n - 1 == (q - 1) * bs + (bs - 1) by {
        assert (q - 1) * bs == q * bs - bs;
      }
      OffsetModulo(q - 1, bs - 1, bs);
      OffsetModulo(1, 0, bs);
    } else {
      OffsetModulo(q, r - 1, bs);
      OffsetModulo(0, bs - r, bs);
    }
  }

  /** Byte `n - 1` at `last`, in the last recorded block, which is readable and ends at `end`. */
  predicate EndsThere(p: Place, es: seq<Extent>, n: nat, last: nat, end: nat)
    requires ValidPlace(p) && n > 0
  {
    && LastIn(p, es).Some? && end <= |p.image|
    && last == LastIn(p, es).value + (n - 1) % p.bs && end == LastIn(p, es).value + p.bs
  }

  /** The last byte of the data, and the end of the block it is in. */
  lemma LastByteAndBlock(p: Place, es: seq<Extent>, n: nat)
    requires ValidPlace(p) && n > 0 && EndsInLastBlock(es, n, p.bs) && DataOf(p, es, n).Some?
    ensures n <= Recording(es)
    ensures EndsThere(p, es, n, AllPositions(p, es)[n - 1], BlockEnd(AllPositions(p, es)[n - 1], p.bs))
  {
    var k := LastRecorded(es);
    LastBytePosition(p, es, n);
    LastBlockReadable(p, es, n);
    EndOfExtent(p, es[k], (n - 1) % p.bs);
  }

  lemma CountedOrNone(p: Place, feLba: nat, n: U64, b: nat)
    requires ValidPlace(p) && n > 0 && InfoLenAt(p, feLba) == Some(n) && LastBlockPos(p, feLba) == Some(b)
    ensures SlackOf(p, feLba) == if SlackBytes(n, p.bs) == 0 then None else TailOf(p, b, n)
  {
  }

  lemma TailResidue(p: Place, b: nat, n: nat)
    requires ValidPlace(p) && n > 0 && b + p.bs <= |p.image| && SlackBytes(n, p.bs) != 0
    ensures TailOf(p, b, n).Some?
    ensures TailOf(p, b, n).value.nonzero > 0 <==> Residue(p.image, b + (n - 1) % p.bs + 1, b + p.bs)
  {
    SlackArithmetic(n, p.bs);
    TailIsRest(p, b, n);
    NonzeroResidue(p.image, b + n % p.bs, b + p.bs);
  }

  lemma NothingLeft(image: seq<byte>, to: nat)
    ensures !Residue(image, to, to)
  {
  }

  lemma CountedResidue(p: Place, feLba: nat, n: U64, b: nat, last: nat)
    requires ValidPlace(p) && n > 0 && InfoLenAt(p, feLba) == Some(n) && LastBlockPos(p, feLba) == Some(b)
    requires b + p.bs <= |p.image| && last == b + (n - 1) % p.bs
    ensures SlackOf(p, feLba).Some? && SlackOf(p, feLba).value.nonzero > 0 <==> Residue(p.image, last + 1, b + p.bs)
  {
    CountedOrNone(p, feLba, n, b);
    FullBlock(n, p.bs);
    if SlackBytes(n, p.bs) != 0 {
      TailResidue(p, b, n);
    } else {
      NothingLeft(p.image, b + p.bs);
    }
  }

  lemma FieldsOfEntry(p: Place, feLba: nat, e: Entry)
    requires ValidPlace(p) && EntryAt(p, feLba) == Some(e) && InExtents(e)
    ensures InfoLenAt(p, feLba) == Some(e.infoLen) && LastBlockPos(p, feLba) == LastIn(p, ExtentsOf(e))
  {
  }

  /** Nonzero slack is counted exactly when a nonzero byte stands behind `last`, before `end`. */
  predicate CountsResidue(p: Place, feLba: nat, last: nat, end: nat)
    requires ValidPlace(p)
  {
    var count := SlackOf(p, feLba);
    count.Some? && count.value.nonzero > 0 <==> Residue(p.image, last + 1, end)
  }

  lemma ResidueCounted(p: Place, feLba: nat, e: Entry, last: nat, end: nat)
    requires ValidPlace(p) && EntryAt(p, feLba) == Some(e) && InExtents(e) && e.infoLen > 0
    requires EndsThere(p, ExtentsOf(e), e.infoLen, last, end)
    ensures CountsResidue(p, feLba, last, end)
  {
    FieldsOfEntry(p, feLba, e);
    CountedResidue(p, feLba, e.infoLen, LastIn(p, ExtentsOf(e)).value, last);
  }

  /**
   * For a file whose data can be read and ends in its last block, nonzero slack
   * is counted exactly when a nonzero byte stands between the last byte of the
   * data and the end of the block that byte is in.
   */
  lemma SlackIsResidue(p: Place, feLba: nat, e: Entry)
    requires ValidPlace(p) && EntryAt(p, feLba) == Some(e) && InExtents(e) && e.infoLen > 0
    requires EndsInLastBlock(ExtentsOf(e), e.infoLen, p.bs) && DataOf(p, ExtentsOf(e), e.infoLen).Some?
    ensures e.infoLen <= Recording(ExtentsOf(e))
    ensures var last := AllPositions(p, ExtentsOf(e))[e.infoLen - 1];
      CountsResidue(p, feLba, last, BlockEnd(last, p.bs))
  {
    var es := ExtentsOf(e);
    LastByteAndBlock(p, es, e.infoLen);
    var last := AllPositions(p, es)[e.infoLen - 1];
    ResidueCounted(p, feLba, e, last, BlockEnd(last, p.bs));
  }

  lemma NonzeroPlaces(s: seq<byte>)
    requires s != []
    ensures var n := |s| - 1;
      |set i: nat | i < |s| && s[i] != 0| == |set i: nat | i < n && s[..n][i] != 0| + if s[n] != 0 then 1 else 0
  {
    var n := |s| - 1;
    var all, init := set i: nat | i < |s| && s[i] != 0, set i: nat | i < n && s[..n][i] != 0;
    assert all == if s[n] != 0 then init + {n} else init;
  }

  /** What is counted is how many bytes are not zero. */
  lemma {:induction false} NonzeroIsCount(s: seq<byte>)
    ensures Nonzero(s) == |set i: nat | i < |s| && s[i] != 0|
  {
    var places := set i: nat | i < |s| && s[i] != 0;
    if s == [] {
      assert places == {};
    } else {
      var n := |s| - 1;
      NonzeroIsCount(s[..n]);
      NonzeroPlaces(s);
    }
  }
}
