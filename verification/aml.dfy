/**
  The AML encoder: package lengths, name strings, data objects, and the
  Scope, Device and Name terms. Section 20.2 of ACPI 6.5.
 */
module Aml {
  import opened Results
  import opened AcpiErrors
  import opened Bytes

  type Encoded = Result<seq<byte>, AcpiError>

  const SCOPE_OP: byte := 0x10
  const NAME_OP: byte := 0x08
  const EXT_OP_PREFIX: byte := 0x5b
  const DEVICE_OP: byte := 0x82
  const ROOT_CHAR: byte := 0x5c
  const PARENT_PREFIX_CHAR: byte := 0x5e
  const DUAL_NAME_PREFIX: byte := 0x2e
  const MULTI_NAME_PREFIX: byte := 0x2f
  const NULL_NAME: byte := 0x00
  const MAX_PKG_LENGTH: nat := 0xfff_ffff

  const ZERO_OP: byte := 0x00
  const ONE_OP: byte := 0x01
  const BYTE_PREFIX: byte := 0x0a
  const WORD_PREFIX: byte := 0x0b
  const DWORD_PREFIX: byte := 0x0c
  const QWORD_PREFIX: byte := 0x0e
  const STRING_PREFIX: byte := 0x0d
  const BUFFER_OP: byte := 0x11
  const PACKAGE_OP: byte := 0x12

  // ----- PkgLength (section 20.2.4) -----

  /** Largest total a PkgLength with `follow` bytes after the lead can hold. */
  function PkgLimit(follow: nat): (r: nat)
    requires follow <= 3
  {
    if follow == 0 then 0x3f else if follow == 1 then 0xfff else if follow == 2 then 0xf_ffff else MAX_PKG_LENGTH
  }

  function PkgBytes(follow: nat, total: nat): (r: seq<byte>)
    requires follow <= 3 && total <= PkgLimit(follow)
  {
    if follow == 0 then [total] else [64 * follow + total % 16] + LE(follow, total / 16)
  }

  /** The PkgLength of a package holding `content` bytes after it: the smallest form that fits. */
  function PkgLengthFrom(content: nat, follow: nat): (r: Encoded)
    requires follow <= 4
    decreases 4 - follow
  {
    if follow == 4 then Err(PkgLengthTooLarge)
    else if content + 1 + follow <= PkgLimit(follow) then Ok(PkgBytes(follow, content + 1 + follow))
    else PkgLengthFrom(content, follow + 1)
  }

  function PkgLength(content: nat): (r: Encoded) {
    PkgLengthFrom(content, 0)
  }

  /** The grammar's reading of a PkgLength at the front of `s`: (value, bytes used). */
  function DecodePkgLength(s: seq<byte>): (r: Option<(nat, nat)>)
    ensures r.Some? ==> 0 < r.value.1 <= |s| && r.value.1 <= 4
  {
    if s == [] then None
    else
      var follow := s[0] / 64;
      if follow == 0 then Some((s[0], 1))
      else if |s| < 1 + follow || (s[0] / 16) % 4 != 0 then None
      else Some((s[0] % 16 + 16 * FromLE(s[1..1 + follow]), 1 + follow))
  }

  lemma PkgBytesDecode(follow: nat, total: nat, rest: seq<byte>)
    requires follow <= 3 && total <= PkgLimit(follow)
    ensures |PkgBytes(follow, total)| == 1 + follow
    ensures DecodePkgLength(PkgBytes(follow, total) + rest) == Some((total, 1 + follow))
  {
    if follow > 0 {
      var p := PkgBytes(follow, total);
      assert (p + rest)[0] == 64 * follow + total % 16;
      assert (p + rest)[1..1 + follow] == LE(follow, total / 16);
      assert total / 16 < Pow256(follow) by {
        assert Pow256(1) == 0x100 && Pow256(2) == 0x1_0000 && Pow256(3) == 0x100_0000;
      }
      FromLEOfLE(follow, total / 16);
    }
  }

  /** `pkg_length` succeeds exactly up to 2^28 - 5 content bytes, counts itself and is self-delimiting. */
  lemma PkgLengthRoundTrip(content: nat, rest: seq<byte>)
    ensures PkgLength(content).Ok? <==> content <= MAX_PKG_LENGTH - 4
    ensures PkgLength(content).Ok? ==>
              var p := PkgLength(content).value;
              && 1 <= |p| <= 4
              && DecodePkgLength(p + rest) == Some((content + |p|, |p|))
              && (|p| > 1 ==> (p[0] / 16) % 4 == 0)
  {
    assert PkgLengthFrom(content, 3) == if content + 4 <= PkgLimit(3) then Ok(PkgBytes(3, content + 4))
      else Err(PkgLengthTooLarge);
    if content + 1 <= PkgLimit(0) {
      PkgBytesDecode(0, content + 1, rest);
    } else if content + 2 <= PkgLimit(1) {
      assert PkgLength(content) == PkgLengthFrom(content, 1);
      PkgBytesDecode(1, content + 2, rest);
    } else if content + 3 <= PkgLimit(2) {
      assert PkgLength(content) == PkgLengthFrom(content, 1) == PkgLengthFrom(content, 2);
      PkgBytesDecode(2, content + 3, rest);
    } else {
      assert PkgLength(content) == PkgLengthFrom(content, 1) == PkgLengthFrom(content, 2) == PkgLengthFrom(content, 3);
      if content + 4 <= PkgLimit(3) {
        PkgBytesDecode(3, content + 4, rest);
      }
    }
  }

  /** No PkgLength of fewer bytes says the same thing. */
  lemma PkgLengthShortest(content: nat, p: seq<byte>)
    requires DecodePkgLength(p) == Some((content + |p|, |p|))
    ensures PkgLength(content).Ok? && |PkgLength(content).value| <= |p|
  {
    var follow := |p| - 1;
    if follow > 0 {
      LEOfFromLE(p[1..1 + follow]);
      assert Pow256(1) == 0x100 && Pow256(2) == 0x1_0000 && Pow256(3) == 0x100_0000;
    }
    assert content + |p| <= PkgLimit(follow);
    PkgLengthRoundTrip(content, []);
    assert PkgLengthFrom(content, 0) == PkgLength(content);
  }

  // ----- names (section 20.2.2) -----

  predicate IsLead(c: char) {
    'A' <= c <= 'Z' || c == '_'
  }

  predicate IsNameChar(c: char) {
    IsLead(c) || '0' <= c <= '9'
  }

  predicate IsNameSeg(seg: string) {
    1 <= |seg| <= 4 && IsLead(seg[0]) && forall i :: 0 <= i < |seg| ==> IsNameChar(seg[i])
  }

  /** One segment, padded with `_` to four characters. */
  function Padded(seg: string): (r: string)
    requires |seg| <= 4
    ensures |r| == 4
    ensures forall i :: 0 <= i < 4 ==> r[i] == if i < |seg| then seg[i] else '_'
  {
    seg + seq(4 - |seg|, _ => '_')
  }

  /** A path in the grammar's terms: root or parent prefixes, then padded segments. */
  datatype NamePath = NamePath(root: bool, parents: nat, segs: seq<string>)

  ghost predicate WellFormedName(n: NamePath) {
    && (n.root ==> n.parents == 0)
    && |n.segs| <= 255
    && (n.segs == [] ==> n.root || n.parents > 0)
    && forall i :: 0 <= i < |n.segs| ==> |n.segs[i]| == 4 && IsNameSeg(n.segs[i])
  }

  function Carets(s: string): (n: nat)
    ensures n <= |s|
    ensures n < |s| ==> s[n] != '^'
    ensures forall i :: 0 <= i < n ==> s[i] == '^'
  {
    if s != [] && s[0] == '^' then 1 + Carets(s[1..]) else 0
  }

  /** `split('.')`. */
  function SplitDots(s: string): (r: seq<string>)
    ensures |r| >= 1
  {
    if s == [] then [[]]
    else
      var tail := SplitDots(s[1..]);
      if s[0] == '.' then [[]] + tail else [[s[0]] + tail[0]] + tail[1..]
  }

  function PadAll(segs: seq<string>): (r: Result<seq<string>, AcpiError>)
    ensures r.Ok? <==> forall i :: 0 <= i < |segs| ==> IsNameSeg(segs[i])
    ensures r.Ok? ==>
              |r.value| == |segs| && forall i :: 0 <= i < |segs| ==> IsNameSeg(segs[i]) && r.value[i] == Padded(segs[i])
  {
    if segs == [] then Ok([])
    else if !IsNameSeg(segs[0]) then Err(BadNameSeg)
    else
      var tail :- PadAll(segs[1..]);
      Ok([Padded(segs[0])] + tail)
  }

  function ParsePath(path: string): (r: Result<NamePath, AcpiError>)
    ensures r.Ok? ==> WellFormedName(r.value)
  {
    var root := path != [] && path[0] == '\\';
    var parents := if root then 0 else Carets(path);
    var rest := if root then path[1..] else path[parents..];
    if rest == [] then
      if root || parents > 0 then Ok(NamePath(root, parents, [])) else Err(BadNamePath)
    else
      var segs :- PadAll(SplitDots(rest));
      if |segs| > 255 then Err(BadNamePath) else Ok(NamePath(root, parents, segs))
  }

  function PrefixBytes(n: NamePath): (r: seq<byte>) {
    if n.root then [ROOT_CHAR] else seq(n.parents, _ => PARENT_PREFIX_CHAR)
  }

  function SegCountBytes(count: nat): (r: seq<byte>)
    requires count <= 255
  {
    if count == 0 then [NULL_NAME]
    else if count == 1 then []
    else if count == 2 then [DUAL_NAME_PREFIX]
    else [MULTI_NAME_PREFIX, count]
  }

  function SegBytes(segs: seq<string>): (r: seq<byte>)
    requires forall i :: 0 <= i < |segs| ==> |segs[i]| == 4 && IsNameSeg(segs[i])
  {
    if segs == [] then []
    else
      assert IsNameSeg(segs[0]);
      AsciiBytes(segs[0]) + SegBytes(segs[1..])
  }

  function EncodeName(n: NamePath): (r: seq<byte>)
    requires WellFormedName(n)
  {
    PrefixBytes(n) + SegCountBytes(|n.segs|) + SegBytes(n.segs)
  }

  function NameString(path: string): (r: Encoded) {
    var n :- ParsePath(path);
    Ok(EncodeName(n))
  }

  lemma {:induction false} NoDots(s: string)
    requires forall i :: 0 <= i < |s| ==> s[i] != '.'
    ensures SplitDots(s) == [s]
  {
    if s != [] {
      NoDots(s[1..]);
      assert [s[1..]][1..] == [] && [s[0]] + s[1..] == s;
    }
  }

  /** A four-character segment is its own NameString. */
  lemma SimpleName(seg: string)
    requires |seg| == 4 && IsNameSeg(seg)
    ensures NameString(seg).Ok? && |NameString(seg).value| == 4
  {
    assert IsNameChar(seg[0]);
    assert forall i :: 0 <= i < 4 ==> IsNameChar(seg[i]);
    NoDots(seg);
    assert Carets(seg) == 0;
    assert seg[0..] == seg;
    assert [seg][0] == seg && PadAll([seg]).Ok?;
    assert PadAll([seg]).value == [Padded(seg)];
    assert Padded(seg) == seg;
    assert SegBytes([seg][1..]) == [];
  }

  /** `\\` and one short segment. */
  lemma RootedName(seg: string)
    requires IsNameSeg(seg)
    ensures NameString("\\" + seg).Ok? && |NameString("\\" + seg).value| == 5
  {
    assert forall i :: 0 <= i < |seg| ==> IsNameChar(seg[i]);
    NoDots(seg);
    assert ("\\" + seg)[1..] == seg;
    assert [seg][0] == seg && PadAll([seg]).Ok?;
    assert PadAll([seg]).value == [Padded(seg)];
    assert SegBytes([Padded(seg)][1..]) == [];
  }

  // ----- data objects (section 20.2.3) -----

  function Integer(value: u64): (r: seq<byte>)
    ensures 1 <= |r| <= 9
  {
    if value == 0 then [ZERO_OP]
    else if value == 1 then [ONE_OP]
    else if value <= 0xff then [BYTE_PREFIX, value]
    else if value <= 0xffff then [WORD_PREFIX] + LE(2, value)
    else if value <= 0xffff_ffff then [DWORD_PREFIX] + LE(4, value)
    else [QWORD_PREFIX] + LE(8, value)
  }

  function Package(elements: seq<seq<byte>>): (r: Encoded) {
    if |elements| > 255 then Err(BadConfig)
    else
      var content := [|elements|] + Flatten(elements);
      var length :- PkgLength(|content|);
      Ok([PACKAGE_OP] + length + content)
  }

  predicate IsText(text: string) {
    forall i :: 0 <= i < |text| ==> 1 as char <= text[i] <= 0x7f as char
  }

  function Text(text: string): (r: Encoded) {
    if !IsText(text) then Err(BadConfig) else Ok([STRING_PREFIX] + AsciiBytes(text) + [0])
  }

  function Buffer(bytes: seq<byte>): (r: Encoded) {
    if |bytes| >= U64 then Err(PkgLengthTooLarge)
    else
      var content := Integer(|bytes|) + bytes;
      var length :- PkgLength(|content|);
      Ok([BUFFER_OP] + length + content)
  }

  // ----- terms (section 20.2.5) -----

  function NamedPackage(opcode: seq<byte>, path: string, body: seq<byte>): (r: Encoded) {
    var name :- NameString(path);
    var length :- PkgLength(|name| + |body|);
    Ok(opcode + length + name + body)
  }

  function Scope(path: string, body: seq<byte>): (r: Encoded) {
    NamedPackage([SCOPE_OP], path, body)
  }

  function Device(path: string, body: seq<byte>): (r: Encoded) {
    NamedPackage([EXT_OP_PREFIX, DEVICE_OP], path, body)
  }

  function Name(path: string, value: seq<byte>): (r: Encoded) {
    var name :- NameString(path);
    Ok([NAME_OP] + name + value)
  }
}
