/**
  AML as trees: the encoder applied to a tree, a decoder written from the
  grammar of sections 20.2.2 to 20.2.5 of ACPI 6.5, and the round trip.
 */
module AmlTree {
  import opened Results
  import opened AcpiErrors
  import opened Bytes
  import opened Aml

  datatype Data = Num(value: u64) | Str(text: string) | Buf(bytes: seq<byte>) | Pkg(elements: seq<Data>)

  /** `N` is an ASL path before encoding and a `NamePath` after decoding. */
  datatype Term<N> = NameTerm(name: N, value: Data) | ScopeTerm(name: N, body: seq<Term<N>>) | DeviceTerm(name: N,
    body: seq<Term<N>>)

  // ----- encoding -----

  function EncodeData(d: Data): (r: Encoded)
    decreases d, 0
  {
    match d
    case Num(value) => Ok(Integer(value))
    case Str(text) => Text(text)
    case Buf(bytes) => Buffer(bytes)
    case Pkg(elements) =>
      var parts :- EncodeElements(elements);
      Package(parts)
  }

  function EncodeElements(ds: seq<Data>): (r: Result<seq<seq<byte>>, AcpiError>)
    ensures r.Ok? ==> |r.value| == |ds|
    decreases ds, 1
  {
    if ds == [] then Ok([])
    else
      var head :- EncodeData(ds[0]);
      var tail :- EncodeElements(ds[1..]);
      Ok([head] + tail)
  }

  function EncodeTerm(t: Term<string>): (r: Encoded)
    decreases t, 0
  {
    match t
    case NameTerm(path, value) =>
      var v :- EncodeData(value);
      Name(path, v)
    case ScopeTerm(path, body) =>
      var b :- EncodeTerms(body);
      Scope(path, b)
    case DeviceTerm(path, body) =>
      var b :- EncodeTerms(body);
      Device(path, b)
  }

  function EncodeTerms(ts: seq<Term<string>>): (r: Encoded)
    decreases ts, 1
  {
    if ts == [] then Ok([])
    else
      var head :- EncodeTerm(ts[0]);
      var tail :- EncodeTerms(ts[1..]);
      Ok(head + tail)
  }

  // ----- decoding -----

  predicate IsSegBytes(s: seq<byte>) {
    |s| == 4 && (forall i :: 0 <= i < 4 ==> s[i] < 128) && IsNameSeg(AsciiString(s))
  }

  function DecodeSegs(s: seq<byte>, count: nat): (r: Option<seq<string>>)
    requires 4 * count <= |s|
    ensures r.Some? ==> |r.value| == count
  {
    if count == 0 then Some([])
    else if !IsSegBytes(s[..4]) then None
    else
      var tail := DecodeSegs(s[4..], count - 1);
      if tail.None? then None else Some([AsciiString(s[..4])] + tail.value)
  }

  function CountCarets(s: seq<byte>): (n: nat)
    ensures n <= |s|
  {
    if s != [] && s[0] == PARENT_PREFIX_CHAR then 1 + CountCarets(s[1..]) else 0
  }

  /** The segments after the prefix characters: (segments, bytes used). */
  function DecodeNamePart(s: seq<byte>): (r: Option<(seq<string>, nat)>)
    ensures r.Some? ==> 0 < r.value.1 <= |s|
  {
    if s == [] then None
    else if s[0] == NULL_NAME then Some(([], 1))
    else
      var lead: nat := if s[0] == DUAL_NAME_PREFIX then 1 else if s[0] == MULTI_NAME_PREFIX then 2 else 0;
      var count: nat :=
        if s[0] == DUAL_NAME_PREFIX then 2
        else if s[0] != MULTI_NAME_PREFIX then 1
        else if |s| < 2 then 0 else s[1];
      if count == 0 || |s| < lead + 4 * count then None
      else
        var segs := DecodeSegs(s[lead..], count);
        if segs.None? then None else Some((segs.value, lead + 4 * count))
  }

  function DecodeName(s: seq<byte>): (r: Option<(NamePath, nat)>)
    ensures r.Some? ==> 0 < r.value.1 <= |s|
  {
    var root := s != [] && s[0] == ROOT_CHAR;
    var parents := if root then 0 else CountCarets(s);
    var prefix := if root then 1 else parents;
    var part := DecodeNamePart(s[prefix..]);
    if part.None? then None
    else Some((NamePath(root, parents, part.value.0), prefix + part.value.1))
  }

  /** A PkgLength and what it encloses: (contents, bytes used). */
  function DecodeExtent(s: seq<byte>): (r: Option<(seq<byte>, nat)>)
    ensures r.Some? ==> 0 < r.value.1 <= |s| && |r.value.0| < r.value.1
  {
    var length := DecodePkgLength(s);
    if length.None? then None
    else
      var (total, used) := length.value;
      if total < used || |s| < total then None else Some((s[used..total], total))
  }

  function FindNul(s: seq<byte>): (r: Option<nat>)
    ensures r.Some? ==> r.value < |s| && s[r.value] == 0 && forall i :: 0 <= i < r.value ==> 0 < s[i] < 128
  {
    if s == [] || s[0] >= 128 then None
    else if s[0] == 0 then Some(0)
    else
      var tail := FindNul(s[1..]);
      if tail.None? then None else Some(1 + tail.value)
  }

  /** An integer in `width` bytes after a one-byte prefix. */
  function DecodeWide(s: seq<byte>, width: nat): (r: Option<(Data, nat)>)
    requires s != [] && width <= 8
    ensures r.Some? ==> r.value.0.Num? && r.value.1 == 1 + width <= |s|
  {
    if |s| < 1 + width then None
    else
      LEOfFromLE(s[1..1 + width]);
      Pow256AtMost(width);
      Some((Num(FromLE(s[1..1 + width])), 1 + width))
  }

  lemma Pow256AtMost(n: nat)
    requires n <= 8
    ensures Pow256(n) <= U64
  {
    assert Pow256(3) == 0x100_0000;
    assert Pow256(5) == 0x100 * U32;
    assert Pow256(6) == 0x1_0000 * U32;
    Pow256Values();
    assert Pow256(7) == 0x100_0000 * U32;
  }

  function DecodeInteger(s: seq<byte>): (r: Option<(Data, nat)>)
    ensures r.Some? ==> r.value.0.Num? && 0 < r.value.1 <= |s|
  {
    if s == [] then None
    else if s[0] == ZERO_OP then Some((Num(0), 1))
    else if s[0] == ONE_OP then Some((Num(1), 1))
    else if s[0] == BYTE_PREFIX then DecodeWide(s, 1)
    else if s[0] == WORD_PREFIX then DecodeWide(s, 2)
    else if s[0] == DWORD_PREFIX then DecodeWide(s, 4)
    else if s[0] == QWORD_PREFIX then DecodeWide(s, 8)
    else None
  }

  function DecodeText(s: seq<byte>): (r: Option<(Data, nat)>)
    requires s != []
    ensures r.Some? ==> 0 < r.value.1 <= |s|
  {
    var nul := FindNul(s[1..]);
    if nul.None? then None
    else Some((Str(AsciiString(s[1..1 + nul.value])), nul.value + 2))
  }

  function DecodeBuffer(s: seq<byte>): (r: Option<(Data, nat)>)
    requires s != []
    ensures r.Some? ==> 0 < r.value.1 <= |s|
  {
    var extent := DecodeExtent(s[1..]);
    if extent.None? then None
    else
      var (content, used) := extent.value;
      var size := DecodeInteger(content);
      if size.None? || |content| - size.value.1 != size.value.0.value then None
      else Some((Buf(content[size.value.1..]), 1 + used))
  }

  function DecodeData(s: seq<byte>): (r: Option<(Data, nat)>)
    ensures r.Some? ==> 0 < r.value.1 <= |s|
    decreases |s|, 0
  {
    if s == [] then None
    else if s[0] == STRING_PREFIX then DecodeText(s)
    else if s[0] == BUFFER_OP then DecodeBuffer(s)
    else if s[0] == PACKAGE_OP then
      var extent := DecodeExtent(s[1..]);
      if extent.None? || extent.value.0 == [] then None
      else
        var (content, used) := extent.value;
        var elements := DecodeElements(content[1..]);
        if elements.None? || |elements.value| != content[0] then None
        else Some((Pkg(elements.value), 1 + used))
    else DecodeInteger(s)
  }

  function DecodeElements(s: seq<byte>): (r: Option<seq<Data>>)
    decreases |s|, 1
  {
    if s == [] then Some([])
    else
      var head := DecodeData(s);
      if head.None? then None
      else
        var tail := DecodeElements(s[head.value.1..]);
        if tail.None? then None else Some([head.value.0] + tail.value)
  }

  /** A Scope or Device after its opcode: (name, body, bytes used). */
  function DecodePackageBody(s: seq<byte>): (r: Option<(NamePath, seq<byte>, nat)>)
    ensures r.Some? ==> 0 < r.value.2 <= |s| && |r.value.1| < |s|
  {
    var extent := DecodeExtent(s);
    if extent.None? then None
    else
      var (content, used) := extent.value;
      var name := DecodeName(content);
      if name.None? then None else Some((name.value.0, content[name.value.1..], used))
  }

  function DecodeNameTerm(s: seq<byte>): (r: Option<(Term<NamePath>, nat)>)
    requires s != []
    ensures r.Some? ==> 0 < r.value.1 <= |s|
  {
    var name := DecodeName(s[1..]);
    if name.None? then None
    else
      var value := DecodeData(s[1 + name.value.1..]);
      if value.None? then None
      else Some((NameTerm(name.value.0, value.value.0), 1 + name.value.1 + value.value.1))
  }

  function DecodeTerm(s: seq<byte>): (r: Option<(Term<NamePath>, nat)>)
    ensures r.Some? ==> 0 < r.value.1 <= |s|
    decreases |s|, 0
  {
    if s == [] then None
    else if s[0] == NAME_OP then DecodeNameTerm(s)
    else if s[0] == SCOPE_OP then
      var p := DecodePackageBody(s[1..]);
      if p.None? then None
      else
        var body := DecodeTerms(p.value.1);
        if body.None? then None else Some((ScopeTerm(p.value.0, body.value), 1 + p.value.2))
    else if s[0] == EXT_OP_PREFIX && |s| > 1 && s[1] == DEVICE_OP then
      var p := DecodePackageBody(s[2..]);
      if p.None? then None
      else
        var body := DecodeTerms(p.value.1);
        if body.None? then None else Some((DeviceTerm(p.value.0, body.value), 2 + p.value.2))
    else None
  }

  function DecodeTerms(s: seq<byte>): (r: Option<seq<Term<NamePath>>>)
    decreases |s|, 1
  {
    if s == [] then Some([])
    else
      var head := DecodeTerm(s);
      if head.None? then None
      else
        var tail := DecodeTerms(s[head.value.1..]);
        if tail.None? then None else Some([head.value.0] + tail.value)
  }

  // ----- the tree a decoder should see: the same, with every path parsed -----

  ghost function Resolve(t: Term<string>): (r: Term<NamePath>)
    requires EncodeTerm(t).Ok?
    decreases t, 0
  {
    match t
    case NameTerm(path, value) => NameTerm(ParsePath(path).value, value)
    case ScopeTerm(path, body) => ScopeTerm(ParsePath(path).value, ResolveAll(body))
    case DeviceTerm(path, body) => DeviceTerm(ParsePath(path).value, ResolveAll(body))
  }

  ghost function ResolveAll(ts: seq<Term<string>>): (r: seq<Term<NamePath>>)
    requires EncodeTerms(ts).Ok?
    decreases ts, 1
  {
    if ts == [] then [] else [Resolve(ts[0])] + ResolveAll(ts[1..])
  }

  // ----- round trips -----

  lemma ExtentRoundTrip(p: seq<byte>, content: seq<byte>, rest: seq<byte>)
    requires PkgLength(|content|) == Ok(p)
    ensures DecodeExtent(p + content + rest) == Some((content, |p| + |content|))
  {
    PkgLengthRoundTrip(|content|, content + rest);
    assert p + content + rest == p + (content + rest);
  }

  lemma {:induction false} SegsRoundTrip(segs: seq<string>, rest: seq<byte>)
    requires forall i :: 0 <= i < |segs| ==> |segs[i]| == 4 && IsNameSeg(segs[i])
    ensures |SegBytes(segs)| == 4 * |segs|
    ensures DecodeSegs(SegBytes(segs) + rest, |segs|) == Some(segs)
  {
    if segs != [] {
      var head := AsciiSeg(segs[0]);
      var tail := SegBytes(segs[1..]) + rest;
      SegsRoundTrip(segs[1..], rest);
      assert SegBytes(segs) + rest == head + tail;
      DropHead(head, tail);
      assert [segs[0]] + segs[1..] == segs;
    }
  }

  /** The four bytes of a padded segment. */
  function AsciiSeg(seg: string): (b: seq<byte>)
    requires |seg| == 4 && IsNameSeg(seg)
    ensures |b| == 4 && IsSegBytes(b) && AsciiString(b) == seg
  {
    AsciiRoundTrip(seg);
    AsciiBytes(seg)
  }

  lemma NamePartRoundTrip(segs: seq<string>, rest: seq<byte>)
    requires |segs| <= 255 && forall i :: 0 <= i < |segs| ==> |segs[i]| == 4 && IsNameSeg(segs[i])
    ensures var b := SegCountBytes(|segs|) + SegBytes(segs);
            DecodeNamePart(b + rest) == Some((segs, |b|))
  {
    hide SegBytes, DecodeSegs, IsNameSeg;
    var lead := SegCountBytes(|segs|);
    var s := lead + SegBytes(segs) + rest;
    SegsRoundTrip(segs, rest);
    NamePartLead(segs, s, rest);
    if |segs| > 0 {
      assert DecodeSegs(s[|lead|..], |segs|) == Some(segs);
    }
  }

  lemma NamePartLead(segs: seq<string>, s: seq<byte>, rest: seq<byte>)
    requires |segs| <= 255 && forall i :: 0 <= i < |segs| ==> |segs[i]| == 4 && IsNameSeg(segs[i])
    requires s == SegCountBytes(|segs|) + SegBytes(segs) + rest
    ensures s != []
    ensures s[|SegCountBytes(|segs|)|..] == SegBytes(segs) + rest
    ensures |segs| == 1 ==> IsLead(s[0] as char)
  {
    var lead := SegCountBytes(|segs|);
    SegsRoundTrip(segs, rest);
    assert s == lead + (SegBytes(segs) + rest);
    DropHead(lead, SegBytes(segs) + rest);
    if |segs| == 1 {
      assert s[0] == AsciiSeg(segs[0])[0];
    }
  }

  lemma {:induction false} CaretsRoundTrip(n: nat, rest: seq<byte>)
    requires rest != [] && rest[0] != PARENT_PREFIX_CHAR
    ensures CountCarets(seq(n, _ => PARENT_PREFIX_CHAR) + rest) == n
  {
    var s := seq(n, _ => PARENT_PREFIX_CHAR) + rest;
    if n > 0 {
      CaretsRoundTrip(n - 1, rest);
      assert s[1..] == seq(n - 1, _ => PARENT_PREFIX_CHAR) + rest;
    }
  }

  /** A NameString is self-delimiting and names its path up to `_` padding. */
  lemma NameRoundTrip(n: NamePath, rest: seq<byte>)
    requires WellFormedName(n)
    ensures DecodeName(EncodeName(n) + rest) == Some((n, |EncodeName(n)|))
  {
    hide SegBytes, DecodeNamePart;
    var prefix := PrefixBytes(n);
    var part := SegCountBytes(|n.segs|) + SegBytes(n.segs);
    var s := EncodeName(n) + rest;
    assert s == prefix + (part + rest);
    NamePartRoundTrip(n.segs, rest);
    NamePartLead(n.segs, part + rest, rest);
    if !n.root {
      CaretsRoundTrip(n.parents, part + rest);
    }
    assert s[|prefix|..] == part + rest;
  }

  lemma NameStringRoundTrip(path: string, rest: seq<byte>)
    requires NameString(path).Ok?
    ensures var b := NameString(path).value;
            ParsePath(path).Ok? && DecodeName(b + rest) == Some((ParsePath(path).value, |b|))
  {
    NameRoundTrip(ParsePath(path).value, rest);
  }

  lemma IntegerRoundTrip(value: u64, rest: seq<byte>)
    ensures DecodeInteger(Integer(value) + rest) == Some((Num(value), |Integer(value)|))
    ensures DecodeData(Integer(value) + rest) == Some((Num(value), |Integer(value)|))
  {
    var s := Integer(value) + rest;
    if value <= 1 {
    } else {
      var width := |Integer(value)| - 1;
      assert LE(1, value) == [value % 256] + LE(0, value / 256);
      assert s[1..1 + width] == LE(width, value);
      Pow256Values();
      FromLEOfLE(width, value);
    }
  }

  lemma {:induction false} FindNulOf(text: string, rest: seq<byte>)
    requires IsText(text)
    ensures FindNul(AsciiBytes(text) + [0] + rest) == Some(|text|)
  {
    var s := AsciiBytes(text) + [0] + rest;
    if text != [] {
      FindNulOf(text[1..], rest);
      assert s[1..] == AsciiBytes(text[1..]) + [0] + rest;
    }
  }

  lemma TextRoundTrip(text: string, rest: seq<byte>)
    requires IsText(text)
    ensures var b := Text(text).value;
            DecodeData(b + rest) == Some((Str(text), |b|))
  {
    var b := Text(text).value;
    var s := b + rest;
    FindNulOf(text, rest);
    assert s[1..] == AsciiBytes(text) + [0] + rest;
    assert s[1..1 + |text|] == AsciiBytes(text);
    AsciiRoundTrip(text);
  }

  lemma BufferRoundTrip(bytes: seq<byte>, rest: seq<byte>)
    requires Buffer(bytes).Ok?
    ensures var b := Buffer(bytes).value;
            DecodeData(b + rest) == Some((Buf(bytes), |b|))
  {
    hide DecodeExtent, PkgLength, DecodeText, DecodeInteger, Integer;
    var size := Integer(|bytes|);
    var content := size + bytes;
    var length := PkgLength(|content|).value;
    var s := Buffer(bytes).value + rest;
    assert s[1..] == length + content + rest;
    ExtentRoundTrip(length, content, rest);
    IntegerRoundTrip(|bytes|, bytes);
    assert content[|size|..] == bytes;
  }

  lemma PackageRoundTrip(p: seq<byte>, inside: seq<byte>, elements: seq<Data>, rest: seq<byte>)
    requires |elements| <= 255 && PkgLength(1 + |inside|) == Ok(p)
    requires DecodeElements(inside) == Some(elements)
    ensures var b := [PACKAGE_OP] + p + ([|elements|] + inside);
            DecodeData(b + rest) == Some((Pkg(elements), |b|))
  {
    hide DecodeExtent, PkgLength, DecodeBuffer, DecodeText, DecodeInteger;
    var content := [|elements|] + inside;
    ExtentRoundTrip(p, content, rest);
    DropHead3([PACKAGE_OP], p, content, rest);
    DropHead([|elements|], inside);
  }

  lemma {:induction false} DataRoundTrip(d: Data, rest: seq<byte>)
    requires EncodeData(d).Ok?
    ensures var b := EncodeData(d).value;
            DecodeData(b + rest) == Some((d, |b|))
    decreases d, 0
  {
    match d
    case Num(value) => IntegerRoundTrip(value, rest);
    case Str(text) => TextRoundTrip(text, rest);
    case Buf(bytes) => BufferRoundTrip(bytes, rest);
    case Pkg(elements) =>
      ElementsRoundTrip(elements);
      var parts := EncodeElements(elements).value;
      PackageRoundTrip(PkgLength(1 + |Flatten(parts)|).value, Flatten(parts), elements, rest);
  }

  lemma {:induction false} ElementsRoundTrip(ds: seq<Data>)
    requires EncodeElements(ds).Ok?
    ensures DecodeElements(Flatten(EncodeElements(ds).value)) == Some(ds)
    decreases ds, 1
  {
    if ds != [] {
      var head := EncodeData(ds[0]).value;
      var tail := EncodeElements(ds[1..]).value;
      ElementsRoundTrip(ds[1..]);
      DataRoundTrip(ds[0], Flatten(tail));
      assert ([head] + tail)[1..] == tail;
      DecodeElementsCons(head, Flatten(tail), ds[0], ds[1..]);
      assert [ds[0]] + ds[1..] == ds;
    }
  }

  lemma DecodeElementsCons(head: seq<byte>, tail: seq<byte>, d: Data, ds: seq<Data>)
    requires head != [] && DecodeData(head + tail) == Some((d, |head|)) && DecodeElements(tail) == Some(ds)
    ensures DecodeElements(head + tail) == Some([d] + ds)
  {
    assert (head + tail)[|head|..] == tail;
  }

  lemma NameTermRoundTrip(name: seq<byte>, n: NamePath, v: seq<byte>, value: Data, rest: seq<byte>)
    requires DecodeName(name + (v + rest)) == Some((n, |name|))
    requires DecodeData(v + rest) == Some((value, |v|))
    ensures var b := [NAME_OP] + name + v;
            DecodeTerm(b + rest) == Some((NameTerm(n, value), |b|))
  {
    hide DecodeName, DecodeData, DecodeTerm;
    DropHead3([NAME_OP], name, v, rest);
    DecodeNameTermStep([NAME_OP] + name + v + rest, n, |name|, value, |v|);
  }

  lemma DecodeNameTermStep(s: seq<byte>, n: NamePath, nameUsed: nat, value: Data, valueUsed: nat)
    requires s != [] && s[0] == NAME_OP && DecodeName(s[1..]) == Some((n, nameUsed))
    requires DecodeData(s[1 + nameUsed..]) == Some((value, valueUsed))
    ensures DecodeTerm(s) == Some((NameTerm(n, value), 1 + nameUsed + valueUsed))
  {
    hide DecodePackageBody, DecodeName;
  }

  lemma PackageBodyRoundTrip(p: seq<byte>, name: seq<byte>, n: NamePath, body: seq<byte>, rest: seq<byte>)
    requires PkgLength(|name| + |body|) == Ok(p)
    requires DecodeName(name + body) == Some((n, |name|))
    ensures DecodePackageBody(p + name + body + rest) == Some((n, body, |p| + |name| + |body|))
  {
    hide DecodeExtent, DecodeName, DecodePackageBody, PkgLength;
    var content := name + body;
    Regroup(p, name, body, rest);
    ExtentRoundTrip(p, content, rest);
    DropHead(name, body);
    DecodePackageBodyStep(p + content + rest, content, |p| + |content|, n, |name|);
  }

  lemma DecodePackageBodyStep(s: seq<byte>, content: seq<byte>, used: nat, n: NamePath, nameUsed: nat)
    requires DecodeExtent(s) == Some((content, used)) && DecodeName(content) == Some((n, nameUsed))
    ensures DecodePackageBody(s) == Some((n, content[nameUsed..], used))
  {
    hide DecodeExtent, DecodeName;
  }

  lemma ScopeRoundTrip(p: seq<byte>, name: seq<byte>, n: NamePath, body: seq<byte>, terms: seq<Term<NamePath>>,
      rest: seq<byte>)
    requires PkgLength(|name| + |body|) == Ok(p)
    requires DecodeName(name + body) == Some((n, |name|)) && DecodeTerms(body) == Some(terms)
    ensures var b := [SCOPE_OP] + p + name + body;
            DecodeTerm(b + rest) == Some((ScopeTerm(n, terms), |b|))
  {
    hide DecodePackageBody, DecodeName, DecodeTerm, PkgLength;
    PackageBodyRoundTrip(p, name, n, body, rest);
    DropHead4([SCOPE_OP], p, name, body, rest);
    DecodeScopeStep([SCOPE_OP] + p + name + body + rest, n, body, |p| + |name| + |body|, terms);
  }

  lemma DecodeScopeStep(s: seq<byte>, n: NamePath, body: seq<byte>, used: nat, terms: seq<Term<NamePath>>)
    requires |s| > 1 && s[..1] == [SCOPE_OP]
    requires DecodePackageBody(s[1..]) == Some((n, body, used)) && DecodeTerms(body) == Some(terms)
    ensures DecodeTerm(s) == Some((ScopeTerm(n, terms), 1 + used))
  {
    hide DecodePackageBody, DecodeNameTerm;
    assert s[0] == s[..1][0];
  }

  lemma DeviceRoundTrip(p: seq<byte>, name: seq<byte>, n: NamePath, body: seq<byte>, terms: seq<Term<NamePath>>,
      rest: seq<byte>)
    requires PkgLength(|name| + |body|) == Ok(p)
    requires DecodeName(name + body) == Some((n, |name|)) && DecodeTerms(body) == Some(terms)
    ensures var b := [EXT_OP_PREFIX, DEVICE_OP] + p + name + body;
            DecodeTerm(b + rest) == Some((DeviceTerm(n, terms), |b|))
  {
    hide DecodePackageBody, DecodeName, DecodeTerm, PkgLength;
    PackageBodyRoundTrip(p, name, n, body, rest);
    var op := [EXT_OP_PREFIX, DEVICE_OP];
    var s := op + p + name + body + rest;
    DropHead4(op, p, name, body, rest);
    DecodeDeviceStep(s, n, body, |p| + |name| + |body|, terms);
  }

  lemma DecodeDeviceStep(s: seq<byte>, n: NamePath, body: seq<byte>, used: nat, terms: seq<Term<NamePath>>)
    requires |s| > 1 && s[..2] == [EXT_OP_PREFIX, DEVICE_OP]
    requires DecodePackageBody(s[2..]) == Some((n, body, used)) && DecodeTerms(body) == Some(terms)
    ensures DecodeTerm(s) == Some((DeviceTerm(n, terms), 2 + used))
  {
    hide DecodePackageBody, DecodeNameTerm;
    assert s[0] == s[..2][0] && s[1] == s[..2][1];
  }

  /** Decoding what the encoder wrote gives the tree back and stops at its last byte, whatever follows. */
  lemma {:induction false} TermRoundTrip(t: Term<string>, rest: seq<byte>)
    requires EncodeTerm(t).Ok?
    ensures var b := EncodeTerm(t).value;
            DecodeTerm(b + rest) == Some((Resolve(t), |b|))
    decreases t, 0
  {
    var name := NameString(t.name).value;
    match t
    case NameTerm(path, value) =>
      var v := EncodeData(value).value;
      NameStringRoundTrip(path, v + rest);
      DataRoundTrip(value, rest);
      NameTermRoundTrip(name, ParsePath(path).value, v, value, rest);
    case ScopeTerm(path, body) =>
      var b := EncodeTerms(body).value;
      TermsRoundTrip(body);
      NameStringRoundTrip(path, b);
      ScopeRoundTrip(PkgLength(|name| + |b|).value, name, ParsePath(path).value, b, ResolveAll(body), rest);
    case DeviceTerm(path, body) =>
      var b := EncodeTerms(body).value;
      TermsRoundTrip(body);
      NameStringRoundTrip(path, b);
      DeviceRoundTrip(PkgLength(|name| + |b|).value, name, ParsePath(path).value, b, ResolveAll(body), rest);
  }

  lemma {:induction false} TermsRoundTrip(ts: seq<Term<string>>)
    requires EncodeTerms(ts).Ok?
    ensures DecodeTerms(EncodeTerms(ts).value) == Some(ResolveAll(ts))
    decreases ts, 1
  {
    if ts != [] {
      var head := EncodeTerm(ts[0]).value;
      var tail := EncodeTerms(ts[1..]).value;
      TermsRoundTrip(ts[1..]);
      TermRoundTrip(ts[0], tail);
      assert (head + tail)[|head|..] == tail;
      assert head + tail != [];
    }
  }

  /** The encoder is injective on term lists, up to `_` padding of names. */
  lemma TermsInjective(ts: seq<Term<string>>, us: seq<Term<string>>)
    requires EncodeTerms(ts).Ok? && EncodeTerms(us).Ok?
    requires EncodeTerms(ts).value == EncodeTerms(us).value
    ensures ResolveAll(ts) == ResolveAll(us)
  {
    TermsRoundTrip(ts);
    TermsRoundTrip(us);
  }
}
