/** Symbolic link targets: path component chains (ECMA-167 part 4, section 14.16). */
module Symlink {
  import opened Bytes
  import Lists

  /** Identifiers decode to text; which text is left open. */
  type Decoder = seq<byte> -> string

  /** The walk over the records from `at` on, with what is already written. */
  function WalkFrom(data: seq<byte>, decode: Decoder, at: nat, text: string): string
    decreases |data| - at
  {
    if at + 4 > |data| then text
    else
      var kind, length, ident := data[at], data[at + 1], at + 4;
      if kind == 1 && length > 0 then WalkFrom(data, decode, ident + length as int, text)
      else if kind == 1 || kind == 2 then WalkFrom(data, decode, ident, "/")
      else if kind == 3 then WalkFrom(data, decode, ident, text + "../")
      else if kind == 4 then WalkFrom(data, decode, ident, text + "./")
      else if kind == 5 then
        var name := if length > 0 && ident + length as int <= |data| then decode(data[ident..ident + length as int])
          else "";
        WalkFrom(data, decode, ident + length as int, text + name + "/")
      else WalkFrom(data, decode, ident, text)
  }

  /** The trailing separator goes, unless it is all there is. */
  function Trim(text: string): string {
    if |text| > 1 && text[|text| - 1] == '/' then text[..|text| - 1] else text
  }

  function Target(data: seq<byte>, decode: Decoder): string {
    Trim(WalkFrom(data, decode, 0, ""))
  }

  /** On arbitrary bytes the cursor only moves forward and stays in range. */
  method DecodeSymlinkTarget(data: seq<byte>, decode: Decoder) returns (out: string)
    ensures out == Target(data, decode)
  {
    out := "";
    var elen: nat := 0;
    while elen + 4 <= |data|
      invariant WalkFrom(data, decode, 0, "") == WalkFrom(data, decode, elen, out)
      decreases |data| - elen
    {
      var componentType := data[elen];
      var length := data[elen + 1];
      var identStart := elen + 4;
      elen := elen + 4;
      if componentType == 1 && length > 0 {
        elen := elen + length as int;
      } else if componentType == 1 || componentType == 2 {
        out := "/";
      } else if componentType == 3 {
        out := out + "../";
      } else if componentType == 4 {
        out := out + "./";
      } else if componentType == 5 {
        if length > 0 && identStart + length as int <= |data| {
          out := out + decode(data[identStart..identStart + length as int]);
        } else {
          assert out + "" == out;
        }
        out := out + "/";
        elen := elen + length as int;
      }
      if elen > |data| {
        break;
      }
    }
    if |out| > 1 && out[|out| - 1] == '/' {
      out := out[..|out| - 1];
    }
  }

  // ----- component chains -----

  datatype Kind = Root | Parent | Up | Here | Name | Unrecognised(code: byte)

  datatype Component = Component(kind: Kind, version: U16, ident: seq<byte>)

  /** Of these records only the header is stepped over. */
  predicate IsBare(k: Kind) {
    k != Root && k != Name
  }

  predicate IsKind(k: Kind) {
    k.Unrecognised? ==> k.code !in {1, 2, 3, 4, 5}
  }

  /** Only a root or a name may carry an identifier. */
  predicate IsComponent(c: Component) {
    IsKind(c.kind) && |c.ident| <= 255 && (IsBare(c.kind) ==> c.ident == [])
  }

  predicate AreComponents(cs: seq<Component>) {
    forall i :: 0 <= i < |cs| ==> IsComponent(cs[i])
  }

  function TypeOf(k: Kind): byte {
    match k
    case Root => 1
    case Parent => 2
    case Up => 3
    case Here => 4
    case Name => 5
    case Unrecognised(code) => code
  }

  function EncodeOne(c: Component): (r: seq<byte>)
    requires IsComponent(c)
    ensures |r| == 4 + |c.ident|
  {
    [TypeOf(c.kind), |c.ident|] + Put16(c.version) + c.ident
  }

  function Encode(cs: seq<Component>): seq<byte>
    requires AreComponents(cs)
  {
    if cs == [] then [] else EncodeOne(cs[0]) + Encode(cs[1..])
  }

  /** An empty root record, or a parent record, starts the path over at the root. */
  predicate Resets(c: Component) {
    c.kind == Parent || (c.kind == Root && c.ident == [])
  }

  function Written(c: Component, decode: Decoder): string {
    match c.kind
    case Root => ""
    case Parent => ""
    case Up => "../"
    case Here => "./"
    case Name => (if c.ident == [] then "" else decode(c.ident)) + "/"
    case Unrecognised(_) => ""
  }

  function Joined(cs: seq<Component>, decode: Decoder): string {
    if cs == [] then "" else Written(cs[0], decode) + Joined(cs[1..], decode)
  }

  function LastReset(cs: seq<Component>): (k: int)
    ensures -1 <= k < |cs| && (k >= 0 ==> Resets(cs[k]))
    ensures forall j :: k < j < |cs| ==> !Resets(cs[j])
  {
    if cs == [] || Resets(cs[|cs| - 1]) then |cs| - 1 else LastReset(cs[..|cs| - 1])
  }

  /** The path a chain denotes: what is written after the last reset, absolute when there is one. */
  function PathOf(cs: seq<Component>, decode: Decoder): string {
    var k := LastReset(cs);
    (if k >= 0 then "/" else "") + Joined(cs[k + 1..], decode)
  }

  /** The walk over an encoded chain, one component at a time. */
  function Render(cs: seq<Component>, decode: Decoder, text: string): string {
    if cs == [] then text
    else Render(cs[1..], decode, if Resets(cs[0]) then "/" else text + Written(cs[0], decode))
  }

  lemma WalkOne(prefix: seq<byte>, c: Component, rest: seq<byte>, decode: Decoder, text: string)
    requires IsComponent(c)
    ensures var data := prefix + EncodeOne(c) + rest;
      WalkFrom(data, decode, |prefix|, text) ==
        WalkFrom(data, decode, |prefix + EncodeOne(c)|, if Resets(c) then "/" else text + Written(c, decode))
  {
    var r := EncodeOne(c);
    var data := prefix + r + rest;
    assert data[|prefix|] == r[0] && data[|prefix| + 1] == r[1];
    assert data[|prefix| + 4..|prefix| + 4 + |c.ident|] == r[4..] == c.ident;
    assert text + "" == text;
    if c.kind == Name {
      var name := if c.ident == [] then "" else decode(c.ident);
      assert text + name + "/" == text + (name + "/");
    }
  }

  /** The walk over an encoded chain renders it, whatever stands before and behind. */
  lemma {:induction false} WalkThrough(prefix: seq<byte>, cs: seq<Component>, rest: seq<byte>, decode: Decoder,
      text: string)
    requires AreComponents(cs)
    ensures var data := prefix + Encode(cs) + rest;
      WalkFrom(data, decode, |prefix|, text) == WalkFrom(data, decode, |prefix + Encode(cs)|, Render(cs, decode, text))
    decreases |cs|
  {
    if cs == [] {
      assert prefix + [] == prefix;
    } else {
      assert IsComponent(cs[0]);
      var r, others := EncodeOne(cs[0]), Encode(cs[1..]);
      Lists.Regroup(prefix, r, others);
      Lists.Regroup(prefix + r, others, rest);
      WalkOne(prefix, cs[0], others + rest, decode, text);
      WalkThrough(prefix + r, cs[1..], rest, decode, if Resets(cs[0]) then "/" else text + Written(cs[0], decode));
    }
  }

  lemma WalkRenders(prefix: seq<byte>, cs: seq<Component>, decode: Decoder, text: string)
    requires AreComponents(cs)
    ensures WalkFrom(prefix + Encode(cs), decode, |prefix|, text) == Render(cs, decode, text)
  {
    WalkThrough(prefix, cs, [], decode, text);
    assert prefix + Encode(cs) + [] == prefix + Encode(cs);
  }

  lemma {:induction false} RenderConcat(a: seq<Component>, b: seq<Component>, decode: Decoder, text: string)
    ensures Render(a + b, decode, text) == Render(b, decode, Render(a, decode, text))
    decreases |a|
  {
    if a == [] {
      assert a + b == b;
    } else {
      assert (a + b)[1..] == a[1..] + b;
      RenderConcat(a[1..], b, decode, if Resets(a[0]) then "/" else text + Written(a[0], decode));
    }
  }

  predicate NoResets(cs: seq<Component>) {
    forall i :: 0 <= i < |cs| ==> !Resets(cs[i])
  }

  lemma {:induction false} RenderWithoutReset(cs: seq<Component>, decode: Decoder, text: string)
    requires NoResets(cs)
    ensures Render(cs, decode, text) == text + Joined(cs, decode)
    decreases |cs|
  {
    if cs == [] {
      assert text + "" == text;
    } else {
      RenderWithoutReset(cs[1..], decode, text + Written(cs[0], decode));
      assert text + Written(cs[0], decode) + Joined(cs[1..], decode) ==
        text + (Written(cs[0], decode) + Joined(cs[1..], decode));
    }
  }

  /** A reset forgets everything before it. */
  lemma RenderAfterReset(before: seq<Component>, c: Component, after: seq<Component>, decode: Decoder, text: string)
    requires Resets(c)
    ensures Render(before + [c] + after, decode, text) == Render(after, decode, "/")
  {
    RenderConcat(before + [c], after, decode, text);
    RenderConcat(before, [c], decode, text);
    assert [c][1..] == [];
  }

  lemma SplitAt<A>(xs: seq<A>, k: nat)
    requires k < |xs|
    ensures xs == xs[..k] + [xs[k]] + xs[k + 1..]
  {
  }

  /** Behind the last reset there is none. */
  lemma NoResetBehind(cs: seq<Component>)
    ensures NoResets(cs[LastReset(cs) + 1..])
  {
  }

  lemma RenderFromReset(cs: seq<Component>, decode: Decoder, k: nat)
    requires k < |cs| && Resets(cs[k]) && NoResets(cs[k + 1..])
    ensures Render(cs, decode, "") == "/" + Joined(cs[k + 1..], decode)
  {
    var before, c, after := cs[..k], cs[k], cs[k + 1..];
    SplitAt(cs, k);
    RenderAfterReset(before, c, after, decode, "");
    RenderWithoutReset(after, decode, "/");
  }

  lemma RelativePath(cs: seq<Component>, decode: Decoder)
    requires LastReset(cs) == -1
    ensures NoResets(cs) && PathOf(cs, decode) == "" + Joined(cs, decode)
  {
    assert cs[0..] == cs;
  }

  lemma RenderIsPath(cs: seq<Component>, decode: Decoder)
    ensures Render(cs, decode, "") == PathOf(cs, decode)
  {
    if LastReset(cs) == -1 {
      RelativePath(cs, decode);
      RenderWithoutReset(cs, decode, "");
    } else {
      NoResetBehind(cs);
      RenderFromReset(cs, decode, LastReset(cs));
    }
  }

  /** Decoding inverts encoding: the trimmed path of the chain. */
  lemma DecodeInvertsEncode(cs: seq<Component>, decode: Decoder)
    requires AreComponents(cs)
    ensures Target(Encode(cs), decode) == Trim(PathOf(cs, decode))
  {
    WalkRenders([], cs, decode, "");
    assert [] + Encode(cs) == Encode(cs);
    RenderIsPath(cs, decode);
  }

  /** What stands before a reset does not matter. */
  lemma OnlyAfterReset(before: seq<Component>, c: Component, after: seq<Component>, decode: Decoder)
    requires AreComponents(before + [c] + after) && Resets(c)
    ensures AreComponents([c] + after)
    ensures Target(Encode(before + [c] + after), decode) == Target(Encode([c] + after), decode)
  {
    var cs, ds := before + [c] + after, [c] + after;
    forall i | 0 <= i < |ds|
      ensures IsComponent(ds[i])
    {
      assert ds[i] == cs[|before| + i];
    }
    WalkRenders([], cs, decode, "");
    WalkRenders([], ds, decode, "");
    assert [] + Encode(cs) == Encode(cs) && [] + Encode(ds) == Encode(ds);
    RenderAfterReset(before, c, after, decode, "");
    RenderAfterReset([], c, after, decode, "");
    assert [] + [c] + after == ds;
  }

  /** What is written does not depend on what was walked before. */
  lemma {:induction false} WalkSuffix(before: seq<byte>, data: seq<byte>, decode: Decoder, at: nat, text: string)
    ensures WalkFrom(before + data, decode, |before| + at, text) == WalkFrom(data, decode, at, text)
    decreases |data| - at
  {
    if at + 4 <= |data| {
      var kind, length, ident := data[at], data[at + 1], at + 4;
      assert (before + data)[|before| + at] == kind && (before + data)[|before| + at + 1] == length;
      if kind == 1 && length > 0 {
        WalkSuffix(before, data, decode, ident + length as int, text);
      } else if kind == 1 || kind == 2 {
        WalkSuffix(before, data, decode, ident, "/");
      } else if kind == 3 {
        WalkSuffix(before, data, decode, ident, text + "../");
      } else if kind == 4 {
        WalkSuffix(before, data, decode, ident, text + "./");
      } else if kind == 5 {
        var name := if length > 0 && ident + length as int <= |data| then decode(data[ident..ident + length as int])
          else "";
        assert length > 0 && ident + length as int <= |data| ==>
          (before + data)[|before| + ident..|before| + ident + length as int] == data[ident..ident + length as int];
        WalkSuffix(before, data, decode, ident + length as int, text + name + "/");
      } else {
        WalkSuffix(before, data, decode, ident, text);
      }
    }
  }

  /** The header of a record with an identifier announced. */
  function HeaderOf(c: Component, length: byte): (h: seq<byte>)
    ensures |h| == 4
  {
    [TypeOf(c.kind), length] + Put16(c.version)
  }

  lemma HeaderIsRead(prefix: seq<byte>, c: Component, length: byte, rest: seq<byte>, decode: Decoder, text: string)
    requires IsKind(c.kind) && IsBare(c.kind)
    ensures var head := prefix + HeaderOf(c, length);
      WalkFrom(head + rest, decode, |prefix|, text) ==
        WalkFrom(head + rest, decode, |head|, if Resets(c) then "/" else text + Written(c, decode))
  {
    var data := prefix + HeaderOf(c, length) + rest;
    assert data[|prefix|] == TypeOf(c.kind) && data[|prefix| + 1] == length;
    assert text + "" == text;
  }

  lemma RenderLast(cs: seq<Component>, c: Component, decode: Decoder)
    ensures Render(cs + [c], decode, "") ==
      if Resets(c) then "/" else Render(cs, decode, "") + Written(c, decode)
  {
    RenderConcat(cs, [c], decode, "");
    assert [c][1..] == [];
  }

  /** An encoded chain and one more header are walked as that chain and that component. */
  lemma WalkHeader(cs: seq<Component>, c: Component, length: byte, tail: seq<byte>, decode: Decoder)
    requires AreComponents(cs) && IsKind(c.kind) && IsBare(c.kind)
    ensures var head := Encode(cs) + HeaderOf(c, length);
      WalkFrom(head + tail, decode, 0, "") == WalkFrom(head + tail, decode, |head|, Render(cs + [c], decode, ""))
  {
    var chain, header := Encode(cs), HeaderOf(c, length);
    Lists.Regroup(chain, header, tail);
    assert [] + chain == chain;
    WalkThrough([], cs, header + tail, decode, "");
    HeaderIsRead(chain, c, length, tail, decode, Render(cs, decode, ""));
    RenderLast(cs, c, decode);
  }

  /**
   * An identifier on a parent, `..`, `.` or unrecognised record is not skipped:
   * behind any chain, the walk goes on with the identifier's own bytes as records.
   */
  lemma IdentifierIsReread(cs: seq<Component>, c: Component, ident: seq<byte>, rest: seq<byte>, decode: Decoder)
    requires AreComponents(cs) && IsComponent(c) && IsBare(c.kind)
    requires |ident| <= 255
    ensures Target(Encode(cs) + HeaderOf(c, |ident|) + (ident + rest), decode) ==
      Trim(WalkFrom(ident + rest, decode, 0, Render(cs + [c], decode, "")))
  {
    var head := Encode(cs) + HeaderOf(c, |ident|);
    WalkHeader(cs, c, |ident|, ident + rest, decode);
    WalkSuffix(head, ident + rest, decode, 0, Render(cs + [c], decode, ""));
  }

  // ----- the end of the data -----

  /** The trailing separator goes, unless it is all there is. */
  lemma TrimIs(text: string)
    ensures text != "" ==> Trim(text + "/") == text
    ensures text == "" || text == "/" || text[|text| - 1] != '/' ==> Trim(text) == text
  {
  }

  /** Behind an encoded chain the walk goes on from the path so far. */
  lemma WalkBehind(cs: seq<Component>, tail: seq<byte>, decode: Decoder)
    requires AreComponents(cs)
    ensures WalkFrom(Encode(cs) + tail, decode, 0, "") ==
      WalkFrom(Encode(cs) + tail, decode, |Encode(cs)|, PathOf(cs, decode))
  {
    var chain := Encode(cs);
    WalkThrough([], cs, tail, decode, "");
    assert [] + chain == chain;
    RenderIsPath(cs, decode);
  }

  lemma WalkOver(head: seq<byte>, tail: seq<byte>, decode: Decoder, at: nat, first: string, text: string)
    requires WalkFrom(head + tail, decode, at, first) == WalkFrom(head + tail, decode, |head|, text)
    ensures WalkFrom(head + tail, decode, at, first) == WalkFrom(tail, decode, 0, text)
  {
    WalkSuffix(head, tail, decode, 0, text);
  }

  lemma TargetBehind(cs: seq<Component>, tail: seq<byte>, decode: Decoder)
    requires AreComponents(cs)
    ensures Target(Encode(cs) + tail, decode) == Trim(WalkFrom(tail, decode, 0, PathOf(cs, decode)))
  {
    WalkBehind(cs, tail, decode);
    WalkOver(Encode(cs), tail, decode, 0, "", PathOf(cs, decode));
  }

  /** Fewer bytes than a header are ignored. */
  lemma FewBytesIgnored(cs: seq<Component>, tail: seq<byte>, decode: Decoder)
    requires AreComponents(cs) && |tail| < 4
    ensures Target(Encode(cs) + tail, decode) == Trim(PathOf(cs, decode))
  {
    TargetBehind(cs, tail, decode);
  }

  lemma CutWalk(data: seq<byte>, decode: Decoder, at: nat, text: string)
    requires at + 4 <= |data| < at + 4 + data[at + 1] as int && data[at] in {1, 5}
    ensures WalkFrom(data, decode, at, text) == text + if data[at] == 5 then "/" else ""
  {
    assert text + "" == text;
  }

  /** An identifier that is cut off ends the walk: a root writes nothing, a name its separator. */
  lemma CutIdentifier(cs: seq<Component>, c: Component, length: byte, ident: seq<byte>, decode: Decoder)
    requires AreComponents(cs) && |ident| < length && (c.kind == Root || c.kind == Name)
    ensures Target(Encode(cs) + (HeaderOf(c, length) + ident), decode) ==
      Trim(PathOf(cs, decode) + if c.kind == Name then "/" else "")
  {
    var tail := HeaderOf(c, length) + ident;
    assert tail[0] == TypeOf(c.kind) && tail[1] == length;
    TargetBehind(cs, tail, decode);
    CutWalk(tail, decode, 0, PathOf(cs, decode));
  }
}
